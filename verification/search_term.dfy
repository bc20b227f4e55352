/**
 * Search-term extraction: the mention spans and then the hashtag spans of a tweet
 * are cut out of its text one after the other, and the rest is stripped. Twitter
 * gives every span in the coordinates of the ORIGINAL text, but each cut is applied
 * to the text as the previous cuts left it; this module keeps that behaviour and
 * states when it coincides with removing all spans at once.
 */
module SearchTerm {
  import opened Options
  import opened Text

  /** An entity's `indices`: the half-open interval [start, end) of the original text. */
  datatype Span = Span(start: nat, end: nat)

  function Min(a: nat, b: nat): nat { if a <= b then a else b }

  /** One cut: `(start > 0 ? t.slice(0..start-1) : "") + t.slice(end..-1)`. Ruby's
      slice from `end` gives nil past the end of `t` and adding nil raises: `None`.
      When the span lies inside `t`, putting the removed text back restores `t`. */
  function Splice(t: string, sp: Span): (r: Option<string>)
    ensures r.None? <==> sp.end > |t|
    ensures r.Some? && sp.start <= sp.end ==> |r.value| == |t| - (sp.end - sp.start)
    ensures r.Some? && sp.start <= sp.end ==>
      r.value[..sp.start] + t[sp.start..sp.end] + r.value[sp.start..] == t
  {
    if sp.end > |t| then None
    else
      var r := (if sp.start > 0 then t[..Min(sp.start, |t|)] else "") + t[sp.end..];
      assert sp.start <= sp.end ==> r[..sp.start] == t[..sp.start] && r[sp.start..] == t[sp.end..];
      Some(r)
  }

  /** Every span is well formed: it does not end before it starts. */
  predicate WellFormed(spans: seq<Span>) {
    forall k :: 0 <= k < |spans| ==> spans[k].start <= spans[k].end
  }

  /** The number of characters the spans cover, counted span by span. */
  function Width(spans: seq<Span>): nat
    decreases |spans|
  {
    if spans == [] || spans[0].end < spans[0].start then 0
    else (spans[0].end - spans[0].start) + Width(spans[1..])
  }

  /** The cuts applied in list order; `None` as soon as one of them fails. With
      well-formed spans every successful cut removes exactly its span's width. */
  function SpliceAll(t: string, spans: seq<Span>): (r: Option<string>)
    ensures spans == [] ==> r == Some(t)
    ensures WellFormed(spans) && r.Some? ==> |r.value| + Width(spans) == |t|
    decreases |spans|
  {
    if spans == [] then Some(t)
    else match Splice(t, spans[0])
      case None => None
      case Some(t') => SpliceAll(t', spans[1..])
  }

  /** Cutting `a + b` is cutting `a` and then cutting `b` from what is left. */
  lemma {:induction false} SpliceAllAppend(t: string, a: seq<Span>, b: seq<Span>)
    ensures SpliceAll(t, a + b) == match SpliceAll(t, a)
                                   case None => None
                                   case Some(t') => SpliceAll(t', b)
    decreases |a|
  {
    if a == [] {
      assert a + b == b;
    } else {
      assert (a + b)[0] == a[0];
      assert (a + b)[1..] == a[1..] + b;
      match Splice(t, a[0])
      case None =>
      case Some(t') =>
        assert SpliceAll(t, a + b) == SpliceAll(t', a[1..] + b);
        assert SpliceAll(t, a) == SpliceAll(t', a[1..]);
        SpliceAllAppend(t', a[1..], b);
    }
  }

  /** The search term of a tweet: mentions first, then hashtags, each in list order,
      then `strip`. `None` when a cut falls past the end of the shrunk text. */
  function Extract(text: string, mentions: seq<Span>, hashtags: seq<Span>): (r: Option<string>)
    ensures r.Some? && r.value != [] ==> !IsSpace(r.value[0]) && !IsSpace(r.value[|r.value| - 1])
    ensures r.Some? <==> SpliceAll(text, mentions + hashtags).Some?
  {
    match SpliceAll(text, mentions + hashtags)
    case None => None
    case Some(t) => Some(Strip(t))
  }

  /** The two `each` loops of the source and the final `strip!`, as a method. */
  method ExtractSearchTerm(text: string, mentions: seq<Span>, hashtags: seq<Span>) returns (r: Option<string>)
    ensures r == Extract(text, mentions, hashtags)
  {
    var spans := mentions + hashtags;
    var term := text;
    var i := 0;
    while i < |mentions|
      invariant 0 <= i <= |mentions|
      invariant SpliceAll(text, spans) == SpliceAll(term, mentions[i..] + hashtags)
    {
      var cut := Splice(term, mentions[i]);
      assert (mentions[i..] + hashtags)[0] == mentions[i];
      assert (mentions[i..] + hashtags)[1..] == mentions[i + 1..] + hashtags;
      if cut.None? {
        return None;
      }
      term := cut.value;
      i := i + 1;
    }
    assert mentions[i..] + hashtags == hashtags;
    var j := 0;
    while j < |hashtags|
      invariant 0 <= j <= |hashtags|
      invariant SpliceAll(text, spans) == SpliceAll(term, hashtags[j..])
    {
      var cut := Splice(term, hashtags[j]);
      assert hashtags[j..][1..] == hashtags[j + 1..];
      if cut.None? {
        return None;
      }
      term := cut.value;
      j := j + 1;
    }
    assert hashtags[j..] == [];
    r := Some(Strip(term));
  }

  /** Without entities the search term is the stripped text. */
  lemma NoSpansStripsText(text: string)
    ensures Extract(text, [], []) == Some(Strip(text))
  {
    var none: seq<Span> := [];
    assert none + none == none;
  }

  /** A single entity at the very start (the usual "@IsItStolen SERIAL" tweet): the
      search term is the stripped rest of the text, whether it is a mention or a hashtag. */
  lemma LeadingSpanStripsRest(text: string, sp: Span)
    requires sp.start == 0 && sp.end <= |text|
    ensures Extract(text, [sp], []) == Some(Strip(text[sp.end..]))
    ensures Extract(text, [], [sp]) == Some(Strip(text[sp.end..]))
  {
    var none: seq<Span> := [];
    assert [sp] + none == [sp] && none + [sp] == [sp];
    assert Splice(text, sp) == Some(text[sp.end..]);
    assert [sp][1..] == none;
    assert SpliceAll(text, [sp]) == SpliceAll(text[sp.end..], none);
  }

  // ---------------------------------------------------------------------------
  // Reference definition: every span removed at once, in original coordinates.

  /** Position `i` of the original text lies inside one of the spans. */
  predicate Covered(i: int, spans: seq<Span>) {
    exists k :: 0 <= k < |spans| && spans[k].start <= i < spans[k].end
  }

  /** The characters of `t[lo..hi]` that no span covers, in order. */
  function KeptFrom(t: string, spans: seq<Span>, lo: nat, hi: nat): (r: string)
    requires lo <= hi <= |t|
    ensures |r| <= hi - lo
    decreases hi - lo
  {
    if lo == hi then []
    else KeptFrom(t, spans, lo, hi - 1) + (if Covered(hi - 1, spans) then [] else [t[hi - 1]])
  }

  /** The text with every span cut out of it at once. */
  function RemoveSpans(t: string, spans: seq<Span>): string {
    KeptFrom(t, spans, 0, |t|)
  }

  lemma {:induction false} KeptSplit(t: string, spans: seq<Span>, lo: nat, mid: nat, hi: nat)
    requires lo <= mid <= hi <= |t|
    ensures KeptFrom(t, spans, lo, hi) == KeptFrom(t, spans, lo, mid) + KeptFrom(t, spans, mid, hi)
    decreases hi - mid
  {
    if mid < hi {
      KeptSplit(t, spans, lo, mid, hi - 1);
    }
  }

  lemma {:induction false} KeptUncovered(t: string, spans: seq<Span>, lo: nat, hi: nat)
    requires lo <= hi <= |t|
    requires forall i :: lo <= i < hi ==> !Covered(i, spans)
    ensures KeptFrom(t, spans, lo, hi) == t[lo..hi]
    decreases hi - lo
  {
    if lo < hi {
      KeptUncovered(t, spans, lo, hi - 1);
      assert t[lo..hi] == t[lo..hi - 1] + [t[hi - 1]];
    }
  }

  lemma {:induction false} KeptAllCovered(t: string, spans: seq<Span>, lo: nat, hi: nat)
    requires lo <= hi <= |t|
    requires forall i :: lo <= i < hi ==> Covered(i, spans)
    ensures KeptFrom(t, spans, lo, hi) == []
    decreases hi - lo
  {
    if lo < hi {
      KeptAllCovered(t, spans, lo, hi - 1);
    }
  }

  /** The kept text depends only on the characters and on which positions are covered. */
  lemma {:induction false} KeptCongruent(t: string, a: seq<Span>, u: string, b: seq<Span>, lo: nat, hi: nat)
    requires lo <= hi <= |t| && hi <= |u|
    requires forall i :: lo <= i < hi ==> t[i] == u[i] && (Covered(i, a) <==> Covered(i, b))
    ensures KeptFrom(t, a, lo, hi) == KeptFrom(u, b, lo, hi)
    decreases hi - lo
  {
    if lo < hi {
      KeptCongruent(t, a, u, b, lo, hi - 1);
    }
  }

  lemma CoveredCons(i: int, sp: Span, rest: seq<Span>)
    ensures Covered(i, [sp] + rest) <==> (sp.start <= i < sp.end || Covered(i, rest))
  {
    var all := [sp] + rest;
    if sp.start <= i < sp.end {
      assert all[0] == sp;
    }
    if Covered(i, rest) {
      var k :| 0 <= k < |rest| && rest[k].start <= i < rest[k].end;
      assert all[k + 1] == rest[k];
    }
    if Covered(i, all) {
      var k :| 0 <= k < |all| && all[k].start <= i < all[k].end;
      if k == 0 {
        assert all[0] == sp;
      } else {
        assert all[k] == rest[k - 1];
        assert rest[k - 1].start <= i < rest[k - 1].end;
      }
    }
  }

  /** Removal at once does not depend on the order the spans are listed in. */
  lemma RemoveSpansOrderFree(t: string, a: seq<Span>, b: seq<Span>)
    ensures RemoveSpans(t, a + b) == RemoveSpans(t, b + a)
  {
    forall i | 0 <= i < |t|
      ensures Covered(i, a + b) <==> Covered(i, b + a)
    {
      if Covered(i, a + b) {
        var k :| 0 <= k < |a + b| && (a + b)[k].start <= i < (a + b)[k].end;
        if k < |a| {
          assert (b + a)[|b| + k] == a[k];
        } else {
          assert (b + a)[k - |a|] == b[k - |a|];
        }
      }
      if Covered(i, b + a) {
        var k :| 0 <= k < |b + a| && (b + a)[k].start <= i < (b + a)[k].end;
        if k < |b| {
          assert (a + b)[|a| + k] == b[k];
        } else {
          assert (a + b)[k - |b|] == a[k - |b|];
        }
      }
    }
    KeptCongruent(t, a + b, t, b + a, 0, |t|);
  }

  /** Spans listed right to left: each one well formed and ending before every
      earlier one starts. */
  predicate Descending(spans: seq<Span>) {
    && (forall k :: 0 <= k < |spans| ==> spans[k].start <= spans[k].end)
    && (forall j, k :: 0 <= j < k < |spans| ==> spans[k].end <= spans[j].start)
  }

  /** Descending order survives dropping the first span, whose start bounds the rest. */
  lemma DescendingTail(spans: seq<Span>)
    requires Descending(spans) && spans != []
    ensures Descending(spans[1..])
    ensures forall i :: spans[0].start <= i ==> !Covered(i, spans[1..])
  {
  }

  /** Under descending order the first span covers its own positions, and no
      position at or after its end is covered. */
  lemma FirstSpanCoverage(spans: seq<Span>)
    requires Descending(spans) && spans != []
    ensures forall i :: spans[0].start <= i < spans[0].end ==> Covered(i, spans)
    ensures forall i :: spans[0].end <= i ==> !Covered(i, spans)
  {
    var sp, rest := spans[0], spans[1..];
    assert spans == [sp] + rest;
    DescendingTail(spans);
    forall i | sp.start <= i
      ensures Covered(i, spans) <==> i < sp.end
    {
      CoveredCons(i, sp, rest);
    }
  }

  /** What removing all spans at once keeps of `t`, when the first span is the
      right-most one: the kept part before it, then everything after it. */
  lemma KeptAroundFirst(t: string, spans: seq<Span>)
    requires Descending(spans) && spans != [] && spans[0].end <= |t|
    ensures RemoveSpans(t, spans) == KeptFrom(t, spans, 0, spans[0].start) + t[spans[0].end..]
  {
    var s, e := spans[0].start, spans[0].end;
    FirstSpanCoverage(spans);
    KeptSplit(t, spans, 0, s, |t|);
    KeptSplit(t, spans, s, e, |t|);
    KeptAllCovered(t, spans, s, e);
    KeptUncovered(t, spans, e, |t|);
  }

  /** The first cut leaves `t` unchanged before the span's start. */
  lemma KeptBeforeFirstCut(t: string, spans: seq<Span>)
    requires Descending(spans) && spans != [] && spans[0].end <= |t|
    ensures KeptFrom(t[..spans[0].start] + t[spans[0].end..], spans[1..], 0, spans[0].start)
         == KeptFrom(t, spans, 0, spans[0].start)
  {
    var sp, rest := spans[0], spans[1..];
    var s, e := sp.start, sp.end;
    var t' := t[..s] + t[e..];
    assert spans == [sp] + rest;
    forall i | 0 <= i < s
      ensures t'[i] == t[i] && (Covered(i, rest) <==> Covered(i, spans))
    {
      CoveredCons(i, sp, rest);
    }
    KeptCongruent(t', rest, t, spans, 0, s);
  }

  /** Past the first cut's start, the remaining cuts keep everything, which is the
      text that followed the first span. */
  lemma KeptPastFirstCut(t: string, spans: seq<Span>)
    requires Descending(spans) && spans != [] && spans[0].end <= |t|
    ensures var t' := t[..spans[0].start] + t[spans[0].end..];
      KeptFrom(t', spans[1..], spans[0].start, |t'|) == t[spans[0].end..]
  {
    var s, e := spans[0].start, spans[0].end;
    var t' := t[..s] + t[e..];
    DescendingTail(spans);
    KeptUncovered(t', spans[1..], s, |t'|);
    assert t'[s..|t'|] == t[e..];
  }

  /** What the remaining cuts keep of `t[..start] + t[end..]` once the first
      (right-most) span is gone: the same kept part before it, then everything after it. */
  lemma KeptAfterFirstCut(t: string, spans: seq<Span>)
    requires Descending(spans) && spans != [] && spans[0].end <= |t|
    ensures RemoveSpans(t[..spans[0].start] + t[spans[0].end..], spans[1..])
         == KeptFrom(t, spans, 0, spans[0].start) + t[spans[0].end..]
  {
    var s, e := spans[0].start, spans[0].end;
    var t' := t[..s] + t[e..];
    KeptSplit(t', spans[1..], 0, s, |t'|);
    KeptBeforeFirstCut(t, spans);
    KeptPastFirstCut(t, spans);
  }

  /** The cut-one-after-the-other of the source removes exactly the spans when they
      come in descending order and lie inside the text: removing a later span
      never shifts an earlier one. */
  lemma {:induction false} DescendingSpliceIsRemoval(t: string, spans: seq<Span>)
    requires Descending(spans)
    requires forall k :: 0 <= k < |spans| ==> spans[k].end <= |t|
    ensures SpliceAll(t, spans) == Some(RemoveSpans(t, spans))
    decreases |spans|
  {
    if spans == [] {
      KeptUncovered(t, spans, 0, |t|);
      assert t[0..|t|] == t;
    } else {
      var s, e := spans[0].start, spans[0].end;
      var t' := t[..s] + t[e..];
      assert Splice(t, spans[0]) == Some(t');
      DescendingTail(spans);
      assert forall k :: 0 <= k < |spans[1..]| ==> spans[1..][k].end <= spans[0].start;
      DescendingSpliceIsRemoval(t', spans[1..]);
      KeptAfterFirstCut(t, spans);
      KeptAroundFirst(t, spans);
    }
  }

  /** In the listed (ascending) order the source does not remove the spans it is
      given: with two leading mentions the second cut lands on shifted text and
      leaves part of the second mention in the search term, whereas removing both
      mentions gives the serial. */
  lemma AscendingMentionsMisfire()
    ensures Extract("@a @b 123", [Span(0, 2), Span(3, 5)], []) == Some("@b23")
  {
    var none: seq<Span> := [];
    var spans := [Span(0, 2), Span(3, 5)];
    assert spans + none == spans;
    assert SpliceAll("@a @b 123", spans) == Some(" @b23") by {
      assert Splice("@a @b 123", Span(0, 2)) == Some(" @b 123");
      assert Splice(" @b 123", Span(3, 5)) == Some(" @b23") by {
        assert " @b 123"[..Min(3, 7)] == " @b" && " @b 123"[5..] == "23";
        assert " @b" + "23" == " @b23";
      }
      assert spans[1..] == [Span(3, 5)] && [Span(3, 5)][1..] == none;
    }
    assert Strip(" @b23") == "@b23" by {
      assert LeadingSpaces(" @b23") == 1;
      assert " @b23"[1..] == "@b23";
      assert TrailingSpaces("@b23") == 0;
    }
  }

  /** Two spans listed left to right are removed correctly by cutting the right one
      first. */
  lemma RightToLeftRemovesBoth(t: string, x: Span, y: Span)
    requires x.start <= x.end <= y.start <= y.end <= |t|
    ensures SpliceAll(t, [y, x]) == Some(RemoveSpans(t, [x, y]))
  {
    assert RemoveSpans(t, [x, y]) == RemoveSpans(t, [y, x]) by {
      RemoveSpansOrderFree(t, [x], [y]);
      assert [x] + [y] == [x, y] && [y] + [x] == [y, x];
    }
    assert Descending([y, x]);
    DescendingSpliceIsRemoval(t, [y, x]);
  }

  /** Removing the same two mentions at once leaves only their separating spaces
      and the serial. */
  lemma RemovingBothMentionsLeavesSerial()
    ensures RemoveSpans("@a @b 123", [Span(0, 2), Span(3, 5)]) == "  123"
  {
    var text := "@a @b 123";
    var none: seq<Span> := [];
    var reversed := [Span(3, 5), Span(0, 2)];
    assert SpliceAll(text, reversed) == Some("  123") by {
      assert Splice(text, Span(3, 5)) == Some("@a  123") by {
        assert text[..Min(3, 9)] == "@a " && text[5..] == " 123";
        assert "@a " + " 123" == "@a  123";
      }
      assert Splice("@a  123", Span(0, 2)) == Some("  123");
      assert reversed[1..] == [Span(0, 2)] && [Span(0, 2)][1..] == none;
    }
    RightToLeftRemovesBoth(text, Span(0, 2), Span(3, 5));
  }

  /** A hashtag after a mention (the "@IsItStolen SERIAL #tag" tweet) is looked up
      at its original offset in the already shortened text, past its end: the
      source raises instead of searching. */
  lemma MentionThenHashtagFails()
    ensures Extract("@bot 123 #bike", [Span(0, 4)], [Span(9, 14)]) == None
  {
    var none: seq<Span> := [];
    var spans := [Span(0, 4)] + [Span(9, 14)];
    assert spans == [Span(0, 4), Span(9, 14)];
    assert Splice("@bot 123 #bike", Span(0, 4)) == Some(" 123 #bike");
    assert Splice(" 123 #bike", Span(9, 14)) == None;
    assert spans[1..] == [Span(9, 14)];
    assert SpliceAll("@bot 123 #bike", spans) == SpliceAll(" 123 #bike", [Span(9, 14)]);
  }
}
