/** Replacing spans of a text: what a list of edits means, and what rewriting end-first computes.

    `Standard` is the reference: the simultaneous substitution that section "TextEdit[]" of the
    Language Server Protocol 3.17 asks for, written offset by offset over the original text and
    without any order of application. */
module Substitution {

  datatype Span = Span(start: nat, end: nat, newText: string)

  function Min(a: nat, b: nat): nat { if a <= b then a else b }

  // ---------------------------------------------------------------- the reference

  /** The new texts of all spans starting at p, in list order. */
  function TextAt(spans: seq<Span>, p: nat): string {
    if spans == [] then ""
    else if spans[0].start == p then spans[0].newText + TextAt(spans[1..], p)
    else TextAt(spans[1..], p)
  }

  /** Whether a span that starts at lo or later replaces the character at offset p. */
  predicate Covered(spans: seq<Span>, lo: nat, p: nat) {
    exists i :: 0 <= i < |spans| && lo <= spans[i].start <= p < spans[i].end
  }

  /** From offset p on: emit `at(p)`, keep the character at p unless it is covered, go on. */
  function Weave(text: string, spans: seq<Span>, at: nat -> string, lo: nat, p: nat): string
    requires p <= |text|
    decreases |text| - p
  {
    if p == |text| then at(p)
    else if Covered(spans, lo, p) then at(p) + Weave(text, spans, at, lo, p + 1)
    else at(p) + ([text[p]] + Weave(text, spans, at, lo, p + 1))
  }

  function InOrder(spans: seq<Span>): nat -> string {
    (p: nat) => TextAt(spans, p)
  }

  function Standard(text: string, spans: seq<Span>): string {
    Weave(text, spans, InOrder(spans), 0, 0)
  }

  /** a may be listed before b: they do not overlap, and if they share their start a inserts. */
  predicate Precedes(a: Span, b: Span) {
    && (a.start < b.start ==> a.end <= b.start)
    && (b.start < a.start ==> b.end <= a.start)
    && (a.start == b.start ==> a.end == a.start)
  }

  /** Section "TextEdit[]": no part of the text is manipulated by two edits; edits may share
      their start only as any number of inserts followed by one more edit. */
  predicate Legal(size: nat, spans: seq<Span>) {
    && (forall i :: 0 <= i < |spans| ==> spans[i].start <= spans[i].end <= size)
    && (forall i, j :: 0 <= i < j < |spans| ==> Precedes(spans[i], spans[j]))
  }

  predicate DistinctStarts(spans: seq<Span>) {
    forall i, j :: 0 <= i < j < |spans| ==> spans[i].start != spans[j].start
  }

  // ---------------------------------------------------------------- the end-first rewriting

  /** Slices of Python: offsets past the end mean the end. */
  function Splice(text: string, s: Span): string {
    text[..Min(s.start, |text|)] + s.newText + text[Min(s.end, |text|)..]
  }

  function Run(text: string, spans: seq<Span>): string
    decreases |spans|
  {
    if spans == [] then text else Run(Splice(text, spans[0]), spans[1..])
  }

  /** Descending by start; equal starts in list order. */
  function Sorted(spans: seq<Span>): (r: seq<Span>)
    ensures |r| == |spans|
  {
    if spans == [] then [] else Insert(spans[0], Sorted(spans[1..]))
  }

  function Insert(s: Span, sorted: seq<Span>): (r: seq<Span>)
    ensures |r| == |sorted| + 1
  {
    if sorted == [] || sorted[0].start <= s.start then [s] + sorted
    else [sorted[0]] + Insert(s, sorted[1..])
  }

  /** The spans starting at p, in list order. */
  function Group(spans: seq<Span>, p: nat): seq<Span> {
    if spans == [] then []
    else if spans[0].start == p then [spans[0]] + Group(spans[1..], p)
    else Group(spans[1..], p)
  }

  /** All groups from offset lo up to size, the last one first. */
  function Buckets(spans: seq<Span>, size: nat, lo: nat): seq<Span>
    decreases size + 1 - lo
  {
    if lo > size then [] else Buckets(spans, size, lo + 1) + Group(spans, lo)
  }

  // ---------------------------------------------------------------- sorting is bucketing

  lemma {:induction false} GroupMembers(spans: seq<Span>, p: nat)
    ensures forall x :: x in Group(spans, p) <==> x in spans && x.start == p
  {
    if spans != [] {
      GroupMembers(spans[1..], p);
      assert forall x :: x in spans <==> x == spans[0] || x in spans[1..];
    }
  }

  lemma {:induction false} BucketsAbove(s: Span, rest: seq<Span>, size: nat, lo: nat)
    requires s.start < lo
    ensures Buckets([s] + rest, size, lo) == Buckets(rest, size, lo)
    decreases size + 1 - lo
  {
    if lo <= size {
      BucketsAbove(s, rest, size, lo + 1);
      assert ([s] + rest)[1..] == rest;
    }
  }

  lemma {:induction false} BucketsSorted(spans: seq<Span>, size: nat, lo: nat)
    ensures forall x :: x in Buckets(spans, size, lo) ==> lo <= x.start
    decreases size + 1 - lo
  {
    if lo <= size {
      BucketsSorted(spans, size, lo + 1);
      GroupMembers(spans, lo);
    }
  }

  /** Inserting skips every element of `front` and lands before `back`. */
  lemma {:induction false} InsertBetween(s: Span, front: seq<Span>, back: seq<Span>)
    requires forall x :: x in front ==> s.start < x.start
    requires back == [] || back[0].start <= s.start
    ensures Insert(s, front + back) == front + ([s] + back)
  {
    if front == [] {
      assert front + back == back;
      assert front + ([s] + back) == [s] + back;
    } else {
      assert (front + back)[1..] == front[1..] + back;
      InsertBetween(s, front[1..], back);
      assert front + ([s] + back) == [front[0]] + (front[1..] + ([s] + back));
    }
  }

  lemma {:induction false} InsertIntoBuckets(s: Span, rest: seq<Span>, size: nat, lo: nat)
    requires lo <= s.start <= size
    ensures Insert(s, Buckets(rest, size, lo)) == Buckets([s] + rest, size, lo)
    decreases size + 1 - lo
  {
    GroupCons(s, rest, lo);
    if s.start == lo {
      InsertIntoFirstBucket(s, rest, size);
    } else {
      InsertIntoBuckets(s, rest, size, lo + 1);
      GroupMembers(rest, lo);
      InsertAppend(s, Buckets(rest, size, lo + 1), Group(rest, lo));
    }
  }

  lemma {:induction false} InsertIntoFirstBucket(s: Span, rest: seq<Span>, size: nat)
    requires s.start <= size
    ensures Insert(s, Buckets(rest, size, s.start)) == Buckets([s] + rest, size, s.start)
  {
    var above, here := Buckets(rest, size, s.start + 1), Group(rest, s.start);
    BucketsSorted(rest, size, s.start + 1);
    GroupMembers(rest, s.start);
    assert here != [] ==> here[0] in here;
    assert Insert(s, above + here) == above + ([s] + here) by {
      InsertBetween(s, above, here);
    }
    assert Buckets([s] + rest, size, s.start) == above + ([s] + here) by {
      GroupCons(s, rest, s.start);
      BucketsAbove(s, rest, size, s.start + 1);
    }
  }

  lemma GroupCons(s: Span, rest: seq<Span>, p: nat)
    ensures Group([s] + rest, p) == if s.start == p then [s] + Group(rest, p) else Group(rest, p)
  {
    assert ([s] + rest)[1..] == rest;
  }

  lemma {:induction false} InsertAppend(s: Span, front: seq<Span>, back: seq<Span>)
    requires forall x :: x in back ==> x.start < s.start
    ensures Insert(s, front + back) == Insert(s, front) + back
  {
    if front == [] {
      assert front + back == back;
    } else {
      assert (front + back)[1..] == front[1..] + back;
      InsertAppend(s, front[1..], back);
      if front[0].start > s.start {
        assert [front[0]] + Insert(s, front[1..]) + back == [front[0]] + (Insert(s, front[1..]) + back);
      } else {
        assert [s] + (front + back) == [s] + front + back;
      }
    }
  }

  /** A stable descending sort is the concatenation of the groups, last group first. */
  lemma {:induction false} SortedIsBuckets(spans: seq<Span>, size: nat)
    requires forall i :: 0 <= i < |spans| ==> spans[i].start <= size
    ensures Sorted(spans) == Buckets(spans, size, 0)
  {
    if spans == [] {
      EmptyBuckets(size, 0);
    } else {
      SortedIsBuckets(spans[1..], size);
      InsertIntoBuckets(spans[0], spans[1..], size, 0);
      assert spans == [spans[0]] + spans[1..];
    }
  }

  lemma {:induction false} EmptyBuckets(size: nat, lo: nat)
    ensures Buckets([], size, lo) == []
    decreases size + 1 - lo
  {
    if lo <= size {
      EmptyBuckets(size, lo + 1);
    }
  }

  // ---------------------------------------------------------------- what the rewriting computes

  /** Where the longest span starting at p ends; p when there is none. */
  function GroupEnd(group: seq<Span>, p: nat): (e: nat)
    ensures p <= e
  {
    if group == [] then p else
      var rest := GroupEnd(group[1..], p);
      if group[0].end <= rest then rest else group[0].end
  }

  /** What the rewriting leaves at p in place of the group's span: the group's spans, one after
      the other, applied to that stretch of the original alone. */
  function RewrittenAt(text: string, spans: seq<Span>, p: nat): string {
    var g := Group(spans, p);
    Fold(text[Min(p, |text|)..Min(GroupEnd(g, p), |text|)], p, g)
  }

  function EndFirst(text: string, spans: seq<Span>): nat -> string {
    (p: nat) => RewrittenAt(text, spans, p)
  }

  /** Applying spans that all start at `base`, to the text from `base` on. */
  function Fold(t: string, base: nat, group: seq<Span>): string
    decreases |group|
  {
    if group == [] then t else
      var cut := if group[0].end <= base then 0 else Min(group[0].end - base, |t|);
      Fold(group[0].newText + t[cut..], base, group[1..])
  }

  /** All spans but the last are inserts at p, and the last one stays within `room` characters. */
  predicate GroupFits(group: seq<Span>, p: nat, room: nat) {
    && (forall i :: 0 <= i < |group| ==> group[i].start == p <= group[i].end <= p + room)
    && (forall i :: 0 <= i < |group| - 1 ==> group[i].end == p)
  }

  lemma {:induction false} LegalGroup(size: nat, spans: seq<Span>, p: nat)
    requires Legal(size, spans) && p <= size
    ensures GroupFits(Group(spans, p), p, size - p)
  {
    if spans != [] {
      var first, rest := spans[0], Group(spans[1..], p);
      LegalGroup(size, spans[1..], p);
      if first.start == p {
        if rest != [] {
          GroupMembers(spans[1..], p);
          assert rest[0] in rest;
          assert exists k :: 0 < k < |spans| && spans[k].start == p;
        }
        FitsCons(first, rest, p, size - p);
      }
    }
  }

  lemma FitsCons(first: Span, rest: seq<Span>, p: nat, room: nat)
    requires GroupFits(rest, p, room) && first.start == p <= first.end <= p + room
    requires rest != [] ==> first.end == p
    ensures GroupFits([first] + rest, p, room)
  {
  }

  lemma {:induction false} RunAppend(text: string, a: seq<Span>, b: seq<Span>)
    ensures Run(text, a + b) == Run(Run(text, a), b)
    decreases |a|
  {
    if a == [] {
      assert a + b == b;
    } else {
      assert (a + b)[1..] == a[1..] + b;
      RunAppend(Splice(text, a[0]), a[1..], b);
    }
  }

  /** A group rewrites only what follows its start. */
  lemma {:induction false} RunGroup(head: string, tail: string, group: seq<Span>)
    requires forall i :: 0 <= i < |group| ==> group[i].start == |head| <= group[i].end
    ensures Run(head + tail, group) == head + Fold(tail, |head|, group)
    decreases |group|
  {
    if group != [] {
      var s := group[0];
      var cut := Min(s.end - |head|, |tail|);
      assert (head + tail)[..|head|] == head;
      assert (head + tail)[Min(s.end, |head + tail|)..] == tail[cut..];
      assert Splice(head + tail, s) == head + (s.newText + tail[cut..]);
      RunGroup(head, s.newText + tail[cut..], group[1..]);
    }
  }

  /** A group never reaches past its own room. */
  lemma {:induction false} FoldExtend(t: string, rest: string, p: nat, group: seq<Span>)
    requires GroupFits(group, p, |t|)
    ensures Fold(t + rest, p, group) == Fold(t, p, group) + rest
    decreases |group|
  {
    if group != [] {
      var s := group[0];
      var cut := s.end - p;
      assert (t + rest)[cut..] == t[cut..] + rest;
      assert s.newText + (t + rest)[cut..] == s.newText + t[cut..] + rest;
      if |group| > 1 {
        FoldExtend(s.newText + t[cut..], rest, p, group[1..]);
      }
    }
  }

  lemma NoText(t: string)
    ensures "" + t == t
  {
  }

  lemma PeelFirst(text: string, lo: nat, e: nat, rest: string)
    requires lo < e <= |text|
    ensures [text[lo]] + (text[lo + 1..e] + rest) == text[lo..e] + rest
  {
    assert text[lo..e] == [text[lo]] + text[lo + 1..e];
  }

  lemma MoveBoundary(text: string, lo: nat, rest: string)
    requires lo < |text|
    ensures text[..lo + 1] + rest == text[..lo] + ([text[lo]] + rest)
  {
    assert text[..lo + 1] == text[..lo] + [text[lo]];
  }

  /** Nothing starts in [x, e) and nothing from lo on covers it: the original shows through. */
  lemma {:induction false} WeaveKeeps(text: string, spans: seq<Span>, at: nat -> string, lo: nat, x: nat, e: nat)
    requires x <= e <= |text|
    requires forall p :: x <= p < e ==> at(p) == "" && !Covered(spans, lo, p)
    ensures Weave(text, spans, at, lo, x) == text[x..e] + Weave(text, spans, at, lo, e)
    decreases e - x
  {
    var rest := Weave(text, spans, at, lo, e);
    if x == e {
      NoText(rest);
    } else {
      WeaveKeeps(text, spans, at, lo, x + 1, e);
      NoText([text[x]] + Weave(text, spans, at, lo, x + 1));
      PeelFirst(text, x, e, rest);
    }
  }

  /** Nothing starts in [x, e) but all of it is covered: nothing is emitted. */
  lemma {:induction false} WeaveSkips(text: string, spans: seq<Span>, at: nat -> string, lo: nat, x: nat, e: nat)
    requires x <= e <= |text|
    requires forall p :: x <= p < e ==> at(p) == "" && Covered(spans, lo, p)
    ensures Weave(text, spans, at, lo, x) == Weave(text, spans, at, lo, e)
    decreases e - x
  {
    if x < e {
      WeaveSkips(text, spans, at, lo, x + 1, e);
      NoText(Weave(text, spans, at, lo, x + 1));
    }
  }

  /** Past the ends of the spans starting at lo, those spans do not matter. */
  lemma {:induction false} WeaveForgets(text: string, spans: seq<Span>, at: nat -> string, lo: nat, x: nat)
    requires x <= |text|
    requires forall i :: 0 <= i < |spans| && spans[i].start == lo ==> spans[i].end <= x
    ensures Weave(text, spans, at, lo, x) == Weave(text, spans, at, lo + 1, x)
    decreases |text| - x
  {
    if x < |text| {
      assert Covered(spans, lo, x) == Covered(spans, lo + 1, x);
      WeaveForgets(text, spans, at, lo, x + 1);
    }
  }

  lemma {:induction false} NothingStarts(spans: seq<Span>, p: nat)
    requires forall i :: 0 <= i < |spans| ==> spans[i].start != p
    ensures Group(spans, p) == [] && TextAt(spans, p) == ""
  {
    if spans != [] {
      NothingStarts(spans[1..], p);
    }
  }

  lemma {:induction false} LongestMember(spans: seq<Span>, p: nat)
    ensures forall k :: 0 <= k < |spans| && spans[k].start == p ==> spans[k].end <= GroupEnd(Group(spans, p), p)
    ensures GroupEnd(Group(spans, p), p) > p ==>
              exists k :: 0 <= k < |spans| && spans[k].start == p && spans[k].end == GroupEnd(Group(spans, p), p)
  {
    if spans != [] {
      LongestMember(spans[1..], p);
      var rest := Group(spans[1..], p);
      assert spans[0].start == p ==> ([spans[0]] + rest)[1..] == rest;
      if GroupEnd(Group(spans, p), p) > p {
        if spans[0].start == p && spans[0].end == GroupEnd(Group(spans, p), p) {
        } else {
          var k :| 0 <= k < |spans[1..]| && spans[1..][k].start == p && spans[1..][k].end == GroupEnd(rest, p);
          assert spans[k + 1] == spans[1..][k];
        }
      }
    }
  }

  /** Inside the stretch a group replaces, nothing else starts and nothing else covers. */
  lemma InsideGroup(text: string, spans: seq<Span>, lo: nat, p: nat)
    requires Legal(|text|, spans) && lo < p < GroupEnd(Group(spans, lo), lo)
    ensures RewrittenAt(text, spans, p) == "" && Covered(spans, lo, p) && !Covered(spans, lo + 1, p)
  {
    LongestMember(spans, lo);
    var k :| 0 <= k < |spans| && spans[k].start == lo && spans[k].end == GroupEnd(Group(spans, lo), lo);
    forall i | 0 <= i < |spans|
      ensures lo < spans[i].start ==> spans[k].end <= spans[i].start
    {
      assert i < k ==> Precedes(spans[i], spans[k]);
      assert k < i ==> Precedes(spans[k], spans[i]);
    }
    NothingStarts(spans, p);
  }

  /** The text from offset lo on, the groups from there on rewritten. */
  function Rewritten(text: string, spans: seq<Span>, lo: nat): string
    requires lo <= |text|
  {
    Weave(text, spans, EndFirst(text, spans), lo, lo)
  }

  /** Past the group that starts at lo, it does not matter whether that group counts. */
  lemma PastGroup(text: string, spans: seq<Span>, lo: nat, x: nat)
    requires GroupEnd(Group(spans, lo), lo) <= x <= |text|
    ensures Weave(text, spans, EndFirst(text, spans), lo, x) == Weave(text, spans, EndFirst(text, spans), lo + 1, x)
  {
    LongestMember(spans, lo);
    WeaveForgets(text, spans, EndFirst(text, spans), lo, x);
  }

  /** What follows the group's stretch, and how both views of the text from lo on contain it. */
  lemma AroundGroup(text: string, spans: seq<Span>, lo: nat) returns (rest: string)
    requires Legal(|text|, spans) && lo < |text|
    requires GroupEnd(Group(spans, lo), lo) <= |text|
    ensures [text[lo]] + Rewritten(text, spans, lo + 1) == text[lo..GroupEnd(Group(spans, lo), lo)] + rest
    ensures Rewritten(text, spans, lo) == RewrittenAt(text, spans, lo) + rest
  {
    CoveredAtStart(spans, lo);
    if GroupEnd(Group(spans, lo), lo) == lo {
      PastGroup(text, spans, lo, lo + 1);
      rest := [text[lo]] + Rewritten(text, spans, lo + 1);
      assert text[lo..lo] + rest == rest;
    } else {
      rest := AroundReplaced(text, spans, lo);
    }
  }

  lemma AroundReplaced(text: string, spans: seq<Span>, lo: nat) returns (rest: string)
    requires Legal(|text|, spans)
    requires lo < GroupEnd(Group(spans, lo), lo) <= |text|
    requires Covered(spans, lo, lo)
    ensures [text[lo]] + Rewritten(text, spans, lo + 1) == text[lo..GroupEnd(Group(spans, lo), lo)] + rest
    ensures Rewritten(text, spans, lo) == RewrittenAt(text, spans, lo) + rest
  {
    var at, e := EndFirst(text, spans), GroupEnd(Group(spans, lo), lo);
    rest := Weave(text, spans, at, lo, e);
    assert Weave(text, spans, at, lo, lo + 1) == rest by {
      forall p | lo < p < e ensures at(p) == "" && Covered(spans, lo, p) {
        InsideGroup(text, spans, lo, p);
      }
      WeaveSkips(text, spans, at, lo, lo + 1, e);
    }
    ReplacedKept(text, spans, lo);
    PeelFirst(text, lo, e, rest);
  }

  lemma ReplacedKept(text: string, spans: seq<Span>, lo: nat)
    requires Legal(|text|, spans)
    requires lo < GroupEnd(Group(spans, lo), lo) <= |text|
    ensures var e := GroupEnd(Group(spans, lo), lo);
            Rewritten(text, spans, lo + 1) == text[lo + 1..e] + Weave(text, spans, EndFirst(text, spans), lo, e)
  {
    var at, e := EndFirst(text, spans), GroupEnd(Group(spans, lo), lo);
    forall p | lo < p < e ensures at(p) == "" && !Covered(spans, lo + 1, p) {
      InsideGroup(text, spans, lo, p);
    }
    WeaveKeeps(text, spans, at, lo + 1, lo + 1, e);
    PastGroup(text, spans, lo, e);
  }

  lemma RewriteStep(text: string, spans: seq<Span>, lo: nat)
    requires Legal(|text|, spans) && lo <= |text|
    ensures var tail := if lo == |text| then "" else [text[lo]] + Rewritten(text, spans, lo + 1);
            Rewritten(text, spans, lo) == Fold(tail, lo, Group(spans, lo))
  {
    var g := Group(spans, lo);
    var e := GroupEnd(g, lo);
    LegalGroup(|text|, spans, lo);
    GroupEndOfFitting(g, lo, |text| - lo);
    if lo == |text| {
      assert text[lo..e] == "";
    } else {
      var rest := AroundGroup(text, spans, lo);
      FoldExtend(text[lo..e], rest, lo, g);
    }
  }

  lemma CoveredAtStart(spans: seq<Span>, lo: nat)
    ensures Covered(spans, lo, lo) <==> GroupEnd(Group(spans, lo), lo) > lo
  {
    LongestMember(spans, lo);
  }

  lemma {:induction false} RunBuckets(text: string, spans: seq<Span>, lo: nat)
    requires Legal(|text|, spans) && lo <= |text| + 1
    ensures Run(text, Buckets(spans, |text|, lo)) ==
            if lo > |text| then text else text[..lo] + Rewritten(text, spans, lo)
    decreases |text| + 1 - lo
  {
    if lo <= |text| {
      RunBuckets(text, spans, lo + 1);
      var tail := if lo == |text| then "" else [text[lo]] + Rewritten(text, spans, lo + 1);
      RunAppend(text, Buckets(spans, |text|, lo + 1), Group(spans, lo));
      assert Run(text, Buckets(spans, |text|, lo + 1)) == text[..lo] + tail by {
        if lo < |text| {
          MoveBoundary(text, lo, Rewritten(text, spans, lo + 1));
        } else {
          assert text[..lo] + tail == text;
        }
      }
      LegalGroup(|text|, spans, lo);
      RunGroup(text[..lo], tail, Group(spans, lo));
      RewriteStep(text, spans, lo);
    }
  }

  /** What rewriting end-first leaves: at every offset, the group's spans rewritten in turn. */
  lemma RunSorted(text: string, spans: seq<Span>)
    requires Legal(|text|, spans)
    ensures Run(text, Sorted(spans)) == Weave(text, spans, EndFirst(text, spans), 0, 0)
  {
    SortedIsBuckets(spans, |text|);
    RunBuckets(text, spans, 0);
    assert text[..0] == "";
  }

  // ---------------------------------------------------------------- rewriting against the reference

  function TotalText(group: seq<Span>): nat {
    if group == [] then 0 else |group[0].newText| + TotalText(group[1..])
  }

  lemma {:induction false} FoldLength(t: string, p: nat, group: seq<Span>)
    requires GroupFits(group, p, |t|)
    requires forall i :: 0 <= i < |group| - 1 ==> group[i].end == p
    ensures |Fold(t, p, group)| ==
            |t| + TotalText(group) - (if group == [] then 0 else group[|group| - 1].end - p)
    decreases |group|
  {
    if group != [] {
      var t' := group[0].newText + t[group[0].end - p..];
      if |group| == 1 {
        assert Fold(t', p, group[1..]) == t';
      } else {
        assert group[|group| - 1] == group[1..][|group[1..]| - 1];
        FoldLength(t', p, group[1..]);
      }
    }
  }

  lemma {:induction false} TextAtLength(spans: seq<Span>, p: nat)
    ensures |TextAt(spans, p)| == TotalText(Group(spans, p))
  {
    if spans != [] {
      var rest := Group(spans[1..], p);
      TextAtLength(spans[1..], p);
      if spans[0].start == p {
        assert Group(spans, p) == [spans[0]] + rest;
        assert ([spans[0]] + rest)[1..] == rest;
      } else {
        assert Group(spans, p) == rest;
      }
    }
  }

  lemma {:induction false} GroupEndOfFitting(group: seq<Span>, p: nat, room: nat)
    requires GroupFits(group, p, room)
    ensures GroupEnd(group, p) == if group == [] then p else group[|group| - 1].end
  {
    if |group| > 1 {
      assert group[|group| - 1] == group[1..][|group[1..]| - 1];
      GroupEndOfFitting(group[1..], p, room);
    }
  }

  lemma RewrittenLength(text: string, spans: seq<Span>, p: nat)
    requires Legal(|text|, spans) && p <= |text|
    ensures |RewrittenAt(text, spans, p)| == |TextAt(spans, p)|
  {
    var g := Group(spans, p);
    LegalGroup(|text|, spans, p);
    GroupEndOfFitting(g, p, |text| - p);
    TextAtLength(spans, p);
    FoldLength(text[p..GroupEnd(g, p)], p, g);
  }

  /** Two weaves whose texts agree in length are equal exactly if they agree at every offset. */
  lemma {:induction false} WeaveEqual(text: string, spans: seq<Span>, a: nat -> string, b: nat -> string,
                                      lo: nat, x: nat)
    requires x <= |text|
    requires forall p :: x <= p <= |text| ==> |a(p)| == |b(p)|
    ensures Weave(text, spans, a, lo, x) == Weave(text, spans, b, lo, x) <==>
            forall p :: x <= p <= |text| ==> a(p) == b(p)
    decreases |text| - x
  {
    if x < |text| {
      var ra, rb := Weave(text, spans, a, lo, x + 1), Weave(text, spans, b, lo, x + 1);
      WeaveEqual(text, spans, a, b, lo, x + 1);
      SplitEqual(a(x), b(x), ra, rb);
      SplitEqual(a(x), b(x), [text[x]] + ra, [text[x]] + rb);
      SplitEqual([text[x]], [text[x]], ra, rb);
      assert (forall p :: x <= p <= |text| ==> a(p) == b(p)) <==>
             a(x) == b(x) && forall p :: x + 1 <= p <= |text| ==> a(p) == b(p);
    }
  }

  lemma SplitEqual(a: string, b: string, x: string, y: string)
    requires |a| == |b|
    ensures a + x == b + y <==> a == b && x == y
  {
    if a + x == b + y {
      assert a == (a + x)[..|a|] == (b + y)[..|b|] == b;
      assert x == (a + x)[|a|..] == (b + y)[|b|..] == y;
    }
  }

  /** End-first rewriting is the simultaneous substitution exactly if, start by start, rewriting
      the group alone gives its new texts in list order. */
  lemma RunMeetsStandard(text: string, spans: seq<Span>)
    requires Legal(|text|, spans)
    ensures Run(text, Sorted(spans)) == Standard(text, spans) <==>
            forall p :: 0 <= p <= |text| ==> RewrittenAt(text, spans, p) == TextAt(spans, p)
  {
    RunSorted(text, spans);
    var a, b := EndFirst(text, spans), InOrder(spans);
    forall p: nat | p <= |text|
      ensures |a(p)| == |b(p)|
    {
      RewrittenLength(text, spans, p);
    }
    WeaveEqual(text, spans, a, b, 0, 0);
    assert forall p: nat :: a(p) == RewrittenAt(text, spans, p) && b(p) == TextAt(spans, p);
  }

  // ---------------------------------------------------------------- what becomes of a group, in closed form

  /** The new texts of a group in list order, and in reverse. */
  function Forwards(group: seq<Span>): string {
    if group == [] then "" else group[0].newText + Forwards(group[1..])
  }

  function Backwards(group: seq<Span>): string {
    if group == [] then "" else Backwards(group[1..]) + group[0].newText
  }

  function Front(group: seq<Span>): seq<Span>
    requires group != []
  {
    group[..|group| - 1]
  }

  function Last(group: seq<Span>): Span
    requires group != []
  {
    group[|group| - 1]
  }

  /** What a group leaves of the stretch t that its last span replaces: the last text, and behind it the
      other texts in reverse and the stretch, less as many characters as the stretch is long. So the
      replacement eats inserted text, and as much of the replaced text survives. */
  function Left(group: seq<Span>, t: string): string
    requires group != []
  {
    Last(group).newText + (Backwards(Front(group)) + t)[|t|..]
  }

  lemma {:induction false} FoldCloses(t: string, w: nat, p: nat, group: seq<Span>)
    requires group != [] && GroupFits(group, p, |t|) && Last(group).end == p + w
    ensures w <= |t| && Fold(t, p, group) == Last(group).newText + (Backwards(Front(group)) + t)[w..]
    decreases |group|
  {
    var first, rest := group[0], group[1..];
    if rest == [] {
      assert Backwards(Front(group)) + t == t;
    } else {
      assert t[0..] == t;
      FoldCloses(first.newText + t, w, p, rest);
      assert Front(group)[1..] == Front(rest) && Front(group)[0] == first;
      assert Backwards(Front(rest)) + (first.newText + t) == Backwards(Front(group)) + t;
    }
  }

  /** The rewriting of a group in closed form. */
  lemma RewrittenCloses(text: string, spans: seq<Span>, p: nat)
    requires Legal(|text|, spans) && p <= |text| && Group(spans, p) != []
    ensures var g := Group(spans, p);
            p <= Last(g).end <= |text| && RewrittenAt(text, spans, p) == Left(g, text[p..Last(g).end])
  {
    var g := Group(spans, p);
    LegalGroup(|text|, spans, p);
    GroupEndOfFitting(g, p, |text| - p);
    FoldCloses(text[p..Last(g).end], Last(g).end - p, p, g);
  }

  lemma {:induction false} TextForwards(spans: seq<Span>, p: nat)
    ensures TextAt(spans, p) == Forwards(Group(spans, p))
  {
    if spans != [] {
      TextForwards(spans[1..], p);
      assert spans == [spans[0]] + spans[1..];
      GroupCons(spans[0], spans[1..], p);
      if spans[0].start == p {
        assert Group(spans, p)[1..] == Group(spans[1..], p);
      }
    }
  }

  /** The texts of the group at p come out in list order. */
  predicate InListOrder(text: string, spans: seq<Span>, p: nat)
    requires Legal(|text|, spans) && p <= |text|
  {
    var g := Group(spans, p);
    g != [] ==> p <= Last(g).end <= |text| && Left(g, text[p..Last(g).end]) == Forwards(g)
  }

  /** End-first rewriting is the simultaneous substitution if and only if the closed form of every group is
      its texts in list order. */
  lemma TiesMeetStandard(text: string, spans: seq<Span>)
    requires Legal(|text|, spans)
    ensures Run(text, Sorted(spans)) == Standard(text, spans) <==>
            forall p :: 0 <= p <= |text| ==> InListOrder(text, spans, p)
  {
    forall p: nat | p <= |text|
      ensures InListOrder(text, spans, p) <==> RewrittenAt(text, spans, p) == TextAt(spans, p)
    {
      TextForwards(spans, p);
      if Group(spans, p) != [] {
        RewrittenCloses(text, spans, p);
      } else {
        assert RewrittenAt(text, spans, p) == "";
      }
    }
    RunMeetsStandard(text, spans);
  }

  // ---------------------------------------------------------------- distinct starts

  lemma {:induction false} GroupAppend(a: seq<Span>, b: seq<Span>, p: nat)
    ensures Group(a + b, p) == Group(a, p) + Group(b, p)
    ensures TextAt(a + b, p) == TextAt(a, p) + TextAt(b, p)
  {
    if a == [] {
      assert a + b == b;
    } else {
      assert (a + b)[1..] == a[1..] + b;
      GroupAppend(a[1..], b, p);
    }
  }

  lemma DistinctGroups(spans: seq<Span>, p: nat)
    requires DistinctStarts(spans)
    ensures |Group(spans, p)| <= 1
  {
    if spans != [] {
      DistinctGroups(spans[1..], p);
      if spans[0].start == p {
        NothingStarts(spans[1..], p);
      }
    }
  }

  lemma {:induction false} TextOfGroup(spans: seq<Span>, p: nat)
    ensures TextAt(spans, p) == TextAt(Group(spans, p), p)
  {
    if spans != [] {
      TextOfGroup(spans[1..], p);
      GroupAppend([spans[0]], spans[1..], p);
      GroupAppend(if spans[0].start == p then [spans[0]] else [], Group(spans[1..], p), p);
    }
  }

  /** With at most one span per start, end-first rewriting is the simultaneous substitution. */
  lemma DistinctMeetsStandard(text: string, spans: seq<Span>)
    requires Legal(|text|, spans) && DistinctStarts(spans)
    ensures Run(text, Sorted(spans)) == Standard(text, spans)
  {
    forall p: nat | p <= |text|
      ensures RewrittenAt(text, spans, p) == TextAt(spans, p)
    {
      var g := Group(spans, p);
      DistinctGroups(spans, p);
      LegalGroup(|text|, spans, p);
      TextOfGroup(spans, p);
      if g != [] {
        assert g == [g[0]];
        assert TextAt(g, p) == g[0].newText;
        var t := text[p..g[0].end];
        assert GroupEnd(g, p) == g[0].end;
        assert Fold(t, p, g) == Fold(g[0].newText + t[|t|..], p, []);
      }
    }
    RunMeetsStandard(text, spans);
  }

  function WithTexts(spans: seq<Span>, texts: seq<string>): (r: seq<Span>)
    requires |texts| == |spans|
    ensures |r| == |spans|
    ensures forall i :: 0 <= i < |r| ==> r[i] == Span(spans[i].start, spans[i].end, texts[i])
  {
    seq(|spans|, i requires 0 <= i < |spans| => Span(spans[i].start, spans[i].end, texts[i]))
  }

  /** The last span of a group is applied last: its text comes first. */
  lemma {:induction false} FoldLast(t: string, p: nat, group: seq<Span>, last: Span)
    ensures last.newText <= Fold(t, p, group + [last])
    decreases |group|
  {
    if group == [] {
      assert group + [last] == [last];
      var cut := if last.end <= p then 0 else Min(last.end - p, |t|);
      assert Fold(t, p, [last]) == Fold(last.newText + t[cut..], p, [last][1..]);
    } else {
      assert (group + [last])[1..] == group[1..] + [last];
      var cut := if group[0].end <= p then 0 else Min(group[0].end - p, |t|);
      FoldLast(group[0].newText + t[cut..], p, group[1..], last);
    }
  }

  /** The largest index whose span starts at p. */
  lemma {:induction false} LastAt(spans: seq<Span>, p: nat, j: nat) returns (k: nat)
    requires j < |spans| && spans[j].start == p
    ensures j <= k < |spans| && spans[k].start == p
    ensures forall m :: k < m < |spans| ==> spans[m].start != p
    decreases |spans| - j
  {
    k := j;
    if m :| j < m < |spans| && spans[m].start == p {
      k := LastAt(spans, p, m);
    }
  }

  /** The first text the reference emits at a start differs from the last one applied there. */
  lemma TieFailsAt(text: string, spans: seq<Span>, i: nat, j: nat)
    requires Legal(|text|, spans) && i < j < |spans| && spans[i].start == spans[j].start
    requires spans[i].newText == "x" && spans[j].newText == "y"
    requires forall k :: 0 <= k < i ==> spans[k].newText == ""
    requires forall m :: j < m < |spans| ==> spans[m].start != spans[j].start
    ensures Run(text, Sorted(spans)) != Standard(text, spans)
  {
    var p := spans[i].start;
    FirstText(spans, i);
    LastRewritten(text, spans, j);
    RunMeetsStandard(text, spans);
    assert TextAt(spans, p)[0] == "x"[0] && RewrittenAt(text, spans, p)[0] == "y"[0];
  }

  function TieTexts(n: nat, i: nat, j: nat): (texts: seq<string>)
    ensures |texts| == n
  {
    seq(n, k => if k == i then "x" else if k == j then "y" else "")
  }

  /** For two spans with the same start there are new texts that come out in the wrong order. */
  lemma TieFails(text: string, spans: seq<Span>) returns (texts: seq<string>)
    requires Legal(|text|, spans) && !DistinctStarts(spans)
    ensures |texts| == |spans|
    ensures Run(text, Sorted(WithTexts(spans, texts))) != Standard(text, WithTexts(spans, texts))
  {
    var i, j0 :| 0 <= i < j0 < |spans| && spans[i].start == spans[j0].start;
    var j := LastAt(spans, spans[i].start, j0);
    texts := TieTexts(|spans|, i, j);
    TieFailsAt(text, WithTexts(spans, texts), i, j);
  }

  lemma {:induction false} FirstText(spans: seq<Span>, i: nat)
    requires i < |spans| && forall k :: 0 <= k < i ==> spans[k].newText == ""
    ensures spans[i].newText <= TextAt(spans, spans[i].start)
  {
    if i > 0 {
      FirstText(spans[1..], i - 1);
      NoText(TextAt(spans[1..], spans[i].start));
    }
  }

  lemma LastRewritten(text: string, spans: seq<Span>, j: nat)
    requires j < |spans| && forall m :: j < m < |spans| ==> spans[m].start != spans[j].start
    ensures spans[j].newText <= RewrittenAt(text, spans, spans[j].start)
  {
    var p := spans[j].start;
    var g := Group(spans, p);
    NothingStarts(spans[j + 1..], p);
    assert g == Group(spans[..j], p) + [spans[j]] by {
      assert spans == spans[..j] + spans[j..];
      GroupAppend(spans[..j], spans[j..], p);
    }
    FoldLast(text[Min(p, |text|)..Min(GroupEnd(g, p), |text|)], p, Group(spans[..j], p), spans[j]);
  }

  // ---------------------------------------------------------------- the order of the list

  lemma {:induction false} GroupMultiset(spans: seq<Span>, p: nat)
    ensures forall x :: multiset(Group(spans, p))[x] == if x.start == p then multiset(spans)[x] else 0
  {
    if spans != [] {
      GroupMultiset(spans[1..], p);
      assert spans == [spans[0]] + spans[1..];
    }
  }

  lemma SameGroups(a: seq<Span>, b: seq<Span>, p: nat)
    requires multiset(a) == multiset(b) && DistinctStarts(a)
    ensures Group(a, p) == Group(b, p)
  {
    GroupMultiset(a, p);
    GroupMultiset(b, p);
    DistinctGroups(a, p);
    var ga, gb := Group(a, p), Group(b, p);
    assert multiset(ga) == multiset(gb);
    assert |ga| == |multiset(ga)| == |multiset(gb)| == |gb|;
    if ga != [] {
      assert ga == [ga[0]] && gb == [gb[0]];
      assert ga[0] in multiset(gb);
    }
  }

  /** With distinct starts neither legality nor the meaning depends on the order of the list. */
  lemma OrderIrrelevant(text: string, a: seq<Span>, b: seq<Span>)
    requires multiset(a) == multiset(b)
    requires Legal(|text|, a) && DistinctStarts(a)
    ensures Legal(|text|, b) && DistinctStarts(b)
    ensures Standard(text, a) == Standard(text, b)
  {
    forall x ensures x in a <==> x in b {
      assert x in a <==> x in multiset(a);
      assert x in b <==> x in multiset(b);
    }
    LegalMembers(|text|, a, b);
    forall p: nat
      ensures |Group(b, p)| <= 1
    {
      SameGroups(a, b, p);
      DistinctGroups(a, p);
    }
    SingletonGroups(b);
    forall p: nat
      ensures InOrder(a)(p) == InOrder(b)(p)
    {
      SameGroups(a, b, p);
      TextOfGroup(a, p);
      TextOfGroup(b, p);
    }
    forall p: nat
      ensures Covered(a, 0, p) == Covered(b, 0, p)
    {
      SameCover(a, b, p);
      SameCover(b, a, p);
    }
    SameWeave(text, a, b, 0);
  }

  lemma LegalMembers(size: nat, a: seq<Span>, b: seq<Span>)
    requires Legal(size, a) && forall x :: x in b ==> x in a
    ensures forall i :: 0 <= i < |b| ==> b[i].start <= b[i].end <= size
    ensures forall i, j :: 0 <= i < |b| && 0 <= j < |b| && b[i].start < b[j].start ==> b[i].end <= b[j].start
  {
    forall i, j | 0 <= i < |b| && 0 <= j < |b|
      ensures b[i].start <= b[i].end <= size && (b[i].start < b[j].start ==> b[i].end <= b[j].start)
    {
      assert b[i] in a && b[j] in a;
      var k, m :| 0 <= k < |a| && 0 <= m < |a| && a[k] == b[i] && a[m] == b[j];
      assert k < m ==> Precedes(a[k], a[m]);
      assert m < k ==> Precedes(a[m], a[k]);
    }
  }

  lemma {:induction false} SingletonGroups(spans: seq<Span>)
    requires forall p :: |Group(spans, p)| <= 1
    ensures DistinctStarts(spans)
  {
    if spans != [] {
      forall p: nat
        ensures |Group(spans[1..], p)| <= 1
      {
        assert |Group(spans, p)| <= 1;
      }
      SingletonGroups(spans[1..]);
      GroupMembers(spans[1..], spans[0].start);
      assert |Group(spans, spans[0].start)| <= 1;
      assert forall x :: x in spans[1..] ==> x.start != spans[0].start;
    }
  }

  lemma SameCover(a: seq<Span>, b: seq<Span>, p: nat)
    requires forall x :: x in a ==> x in b
    ensures Covered(a, 0, p) ==> Covered(b, 0, p)
  {
    if i :| 0 <= i < |a| && 0 <= a[i].start <= p < a[i].end {
      assert a[i] in b;
    }
  }

  lemma {:induction false} SameWeave(text: string, a: seq<Span>, b: seq<Span>, x: nat)
    requires x <= |text|
    requires forall p: nat :: InOrder(a)(p) == InOrder(b)(p)
    requires forall p: nat :: Covered(a, 0, p) == Covered(b, 0, p)
    ensures Weave(text, a, InOrder(a), 0, x) == Weave(text, b, InOrder(b), 0, x)
    decreases |text| - x
  {
    if x < |text| {
      SameWeave(text, a, b, x + 1);
    }
  }

  // ---------------------------------------------------------------- while the rewriting is under way

  /** Spans applied at or after `bound`, and pure inserts at or after `lo`, leave the text before
      `lo` alone and never make it shorter than `bound`. */
  lemma {:induction false} RunKeepsPrefix(text: string, spans: seq<Span>, lo: nat, bound: nat)
    requires lo <= bound <= |text|
    requires forall i :: 0 <= i < |spans| ==>
               && lo <= spans[i].start <= spans[i].end
               && (bound <= spans[i].start || spans[i].start == spans[i].end)
    ensures bound <= |Run(text, spans)|
    ensures Run(text, spans)[..lo] == text[..lo]
    decreases |spans|
  {
    if spans != [] {
      var next := Splice(text, spans[0]);
      assert next[..lo] == text[..lo];
      RunKeepsPrefix(next, spans[1..], lo, bound);
    }
  }

  function Growth(spans: seq<Span>): int {
    if spans == [] then 0 else |spans[0].newText| - (spans[0].end - spans[0].start) + Growth(spans[1..])
  }

  predicate Descending(spans: seq<Span>) {
    forall i, j :: 0 <= i < j < |spans| ==> spans[i].start >= spans[j].start
  }

  /** Before the k-th span is applied, everything up to its start is still the original text and
      everything it replaces is still there, so no offset is clamped. */
  lemma OffsetsStable(text: string, sorted: seq<Span>, k: nat)
    requires Legal(|text|, sorted) && Descending(sorted) && k < |sorted|
    ensures var now := Run(text, sorted[..k]);
            && sorted[k].end <= |now|
            && now[..sorted[k].start] == text[..sorted[k].start]
  {
    RunKeepsPrefix(text, sorted[..k], sorted[k].start, sorted[k].end);
  }

  lemma {:induction false} RunLength(text: string, sorted: seq<Span>, k: nat)
    requires Legal(|text|, sorted) && Descending(sorted) && k <= |sorted|
    ensures |Run(text, sorted[..k])| == |text| + Growth(sorted[..k])
  {
    if k > 0 {
      RunLength(text, sorted, k - 1);
      OffsetsStable(text, sorted, k - 1);
      assert sorted[..k] == sorted[..k - 1] + [sorted[k - 1]];
      RunAppend(text, sorted[..k - 1], [sorted[k - 1]]);
      GrowthAppend(sorted[..k - 1], sorted[k - 1]);
      var now := Run(text, sorted[..k - 1]);
      assert Run(now, [sorted[k - 1]]) == Run(Splice(now, sorted[k - 1]), []);
    }
  }

  lemma {:induction false} GrowthAppend(spans: seq<Span>, s: Span)
    ensures Growth(spans + [s]) == Growth(spans) + |s.newText| - (s.end - s.start)
  {
    if spans == [] {
      assert [] + [s] == [s];
    } else {
      assert (spans + [s])[1..] == spans[1..] + [s];
      GrowthAppend(spans[1..], s);
    }
  }
}
