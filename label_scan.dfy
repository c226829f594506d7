/** The search both stub patterns of index.js perform: one of several labels (letters
    compared without regard to case), then any run of characters allowed in the gap
    (matched lazily, so the nearest target wins), then a target. Like `String.prototype.match`
    with a non-global pattern, the leftmost label position that can be completed wins; at
    one position the labels are tried in the order the pattern lists them. */
module LabelScan {
  import opened Wrappers
  import opened Text

  /** What the pattern requires after the gap, at a position of the text: the text it
      captures there, or None. */
  type Target = (string, nat) -> Option<string>

  /** Every character of text[from..to] may stand in the gap. */
  ghost predicate GapOk(text: string, from: nat, to: nat, gap: char -> bool) {
    from <= to <= |text| && forall k :: from <= k < to ==> gap(text[k])
  }

  /** Label number `li` occurs at `p`, and the target at `q` can follow it across the gap. */
  ghost predicate MatchAt(text: string, labels: seq<string>, gap: char -> bool, target: Target,
                          p: nat, li: nat, q: nat)
  {
    && li < |labels|
    && MatchesCI(text, p, labels[li])
    && GapOk(text, p + |labels[li]|, q, gap)
    && target(text, q).Some?
  }

  /** The match at (p, li, q) is the one a backtracking matcher reports when it starts
      scanning at `start`: no label position before `p` can be completed, no earlier label
      at `p` can, and no nearer target follows label `li`. */
  ghost predicate Leftmost(text: string, labels: seq<string>, gap: char -> bool, target: Target,
                           start: nat, p: nat, li: nat, q: nat)
  {
    && (forall p': nat, li': nat, q': nat :: start <= p' < p ==> !MatchAt(text, labels, gap, target, p', li', q'))
    && (forall li': nat, q': nat :: li' < li ==> !MatchAt(text, labels, gap, target, p, li', q'))
    && (forall q': nat :: q' < q ==> !MatchAt(text, labels, gap, target, p, li, q'))
  }

  /** The lazy gap: the first position from `q` on where the target matches, reached over
      gap characters only. */
  function Lazy(text: string, q: nat, gap: char -> bool, target: Target): Option<string>
    requires q <= |text|
    decreases |text| - q
  {
    if target(text, q).Some? then target(text, q)
    else if q < |text| && gap(text[q]) then Lazy(text, q + 1, gap, target)
    else None
  }

  /** The alternatives of the label group, tried in order at position `p`. */
  function TryLabels(text: string, p: nat, labels: seq<string>, gap: char -> bool, target: Target)
    : Option<string>
    decreases |labels|
  {
    if |labels| == 0 then None
    else if MatchesCI(text, p, labels[0]) && Lazy(text, p + |labels[0]|, gap, target).Some? then
      Lazy(text, p + |labels[0]|, gap, target)
    else TryLabels(text, p, labels[1..], gap, target)
  }

  /** The first match starting at `p` or later. */
  function FindFrom(text: string, p: nat, labels: seq<string>, gap: char -> bool, target: Target)
    : Option<string>
    requires p <= |text|
    decreases |text| - p
  {
    var here := TryLabels(text, p, labels, gap, target);
    if here.Some? then here
    else if p < |text| then FindFrom(text, p + 1, labels, gap, target)
    else None
  }

  lemma {:induction false} LazyNone(text: string, q0: nat, gap: char -> bool, target: Target)
    requires q0 <= |text|
    ensures Lazy(text, q0, gap, target).None?
            <==> forall q: nat :: GapOk(text, q0, q, gap) ==> target(text, q).None?
    decreases |text| - q0
  {
    if target(text, q0).Some? {
      assert GapOk(text, q0, q0, gap);
    } else if q0 < |text| && gap(text[q0]) {
      LazyNone(text, q0 + 1, gap, target);
      forall q: nat | GapOk(text, q0, q, gap) && q != q0 ensures GapOk(text, q0 + 1, q, gap) { }
      forall q: nat | GapOk(text, q0 + 1, q, gap) ensures GapOk(text, q0, q, gap) { }
    } else {
      forall q: nat | GapOk(text, q0, q, gap) ensures q == q0 { }
    }
  }

  lemma {:induction false} LazySome(text: string, q0: nat, gap: char -> bool, target: Target)
    requires q0 <= |text|
    requires Lazy(text, q0, gap, target).Some?
    ensures exists q: nat :: && GapOk(text, q0, q, gap)
                        && target(text, q) == Lazy(text, q0, gap, target)
                        && forall q': nat :: q0 <= q' < q ==> target(text, q').None?
    decreases |text| - q0
  {
    if target(text, q0).Some? {
      assert GapOk(text, q0, q0, gap);
    } else {
      LazySome(text, q0 + 1, gap, target);
      var q: nat :| && GapOk(text, q0 + 1, q, gap)
                && target(text, q) == Lazy(text, q0 + 1, gap, target)
                && forall q': nat :: q0 + 1 <= q' < q ==> target(text, q').None?;
      assert GapOk(text, q0, q, gap);
    }
  }

  lemma {:induction false} TryLabelsNone(text: string, p: nat, labels: seq<string>,
                                          gap: char -> bool, target: Target)
    ensures TryLabels(text, p, labels, gap, target).None?
            <==> forall li: nat, q: nat :: !MatchAt(text, labels, gap, target, p, li, q)
    decreases |labels|
  {
    if |labels| > 0 {
      TryLabelsNone(text, p, labels[1..], gap, target);
      var n := |labels[0]|;
      forall li: nat, q: nat | MatchAt(text, labels, gap, target, p, li, q) && li > 0
        ensures MatchAt(text, labels[1..], gap, target, p, li - 1, q) { }
      forall li: nat, q: nat | MatchAt(text, labels[1..], gap, target, p, li, q)
        ensures MatchAt(text, labels, gap, target, p, li + 1, q) { }
      if MatchesCI(text, p, labels[0]) {
        LazyNone(text, p + n, gap, target);
        if Lazy(text, p + n, gap, target).Some? {
          var q: nat :| GapOk(text, p + n, q, gap) && target(text, q).Some?;
          assert MatchAt(text, labels, gap, target, p, 0, q);
        }
      }
    }
  }

  lemma {:induction false} TryLabelsSome(text: string, p: nat, labels: seq<string>,
                                          gap: char -> bool, target: Target)
    requires TryLabels(text, p, labels, gap, target).Some?
    ensures exists li: nat, q: nat :: && MatchAt(text, labels, gap, target, p, li, q)
                            && target(text, q) == TryLabels(text, p, labels, gap, target)
                            && (forall li': nat, q': nat :: li' < li ==> !MatchAt(text, labels, gap, target, p, li', q'))
                            && (forall q': nat :: q' < q ==> !MatchAt(text, labels, gap, target, p, li, q'))
    decreases |labels|
  {
    var n := |labels[0]|;
    if MatchesCI(text, p, labels[0]) && Lazy(text, p + n, gap, target).Some? {
      LazySome(text, p + n, gap, target);
      var q: nat :| && GapOk(text, p + n, q, gap)
                && target(text, q) == Lazy(text, p + n, gap, target)
                && forall q': nat :: p + n <= q' < q ==> target(text, q').None?;
      assert MatchAt(text, labels, gap, target, p, 0, q);
    } else {
      TryLabelsSome(text, p, labels[1..], gap, target);
      var li: nat, q: nat :| && MatchAt(text, labels[1..], gap, target, p, li, q)
                   && target(text, q) == TryLabels(text, p, labels[1..], gap, target)
                   && (forall li': nat, q': nat :: li' < li ==> !MatchAt(text, labels[1..], gap, target, p, li', q'))
                   && (forall q': nat :: q' < q ==> !MatchAt(text, labels[1..], gap, target, p, li, q'));
      SkipFirstLabel(text, p, labels, gap, target, li, li + 1, q);
    }
  }

  /** When the first label cannot be completed at `p`, the first match among the other
      labels is the first match among all of them, one label further on. */
  lemma SkipFirstLabel(text: string, p: nat, labels: seq<string>, gap: char -> bool,
                       target: Target, li: nat, li1: nat, q: nat)
    requires |labels| > 0 && li1 == li + 1
    requires !(MatchesCI(text, p, labels[0]) && Lazy(text, p + |labels[0]|, gap, target).Some?)
    requires MatchAt(text, labels[1..], gap, target, p, li, q)
    requires forall li': nat, q': nat :: li' < li ==> !MatchAt(text, labels[1..], gap, target, p, li', q')
    requires forall q': nat :: q' < q ==> !MatchAt(text, labels[1..], gap, target, p, li, q')
    ensures MatchAt(text, labels, gap, target, p, li1, q)
    ensures forall li': nat, q': nat :: li' < li1 ==> !MatchAt(text, labels, gap, target, p, li', q')
    ensures forall q': nat :: q' < q ==> !MatchAt(text, labels, gap, target, p, li1, q')
  {
    var n := |labels[0]|;
    assert MatchAt(text, labels, gap, target, p, li1, q);
    if MatchesCI(text, p, labels[0]) {
      LazyNone(text, p + n, gap, target);
    }
    forall li': nat, q': nat | li' < li1 ensures !MatchAt(text, labels, gap, target, p, li', q') {
      if li' > 0 {
        if MatchAt(text, labels, gap, target, p, li', q') {
          assert MatchAt(text, labels[1..], gap, target, p, li' - 1, q');
        }
      }
    }
    forall q': nat | q' < q ensures !MatchAt(text, labels, gap, target, p, li1, q') {
      if MatchAt(text, labels, gap, target, p, li1, q') {
        assert MatchAt(text, labels[1..], gap, target, p, li, q');
      }
    }
  }

  /** The search finds nothing exactly when no label at or after `start` can be completed. */
  lemma {:induction false} FindFromNone(text: string, start: nat, labels: seq<string>,
                                         gap: char -> bool, target: Target)
    requires start <= |text|
    ensures FindFrom(text, start, labels, gap, target).None?
            <==> forall p: nat, li: nat, q: nat :: start <= p ==> !MatchAt(text, labels, gap, target, p, li, q)
    decreases |text| - start
  {
    TryLabelsNone(text, start, labels, gap, target);
    if start < |text| {
      FindFromNone(text, start + 1, labels, gap, target);
    } else {
      forall p: nat, li: nat, q: nat | start < p ensures !MatchAt(text, labels, gap, target, p, li, q) { }
    }
  }

  /** What the search finds is the target of the leftmost match at or after `start`. */
  lemma {:induction false} FindFromSome(text: string, start: nat, labels: seq<string>,
                                         gap: char -> bool, target: Target)
    requires start <= |text|
    requires FindFrom(text, start, labels, gap, target).Some?
    ensures exists p: nat, li: nat, q: nat :: && start <= p
                               && MatchAt(text, labels, gap, target, p, li, q)
                               && Leftmost(text, labels, gap, target, start, p, li, q)
                               && target(text, q) == FindFrom(text, start, labels, gap, target)
    decreases |text| - start
  {
    if TryLabels(text, start, labels, gap, target).Some? {
      TryLabelsSome(text, start, labels, gap, target);
      var li: nat, q: nat :| && MatchAt(text, labels, gap, target, start, li, q)
                   && target(text, q) == TryLabels(text, start, labels, gap, target)
                   && (forall li': nat, q': nat :: li' < li ==> !MatchAt(text, labels, gap, target, start, li', q'))
                   && (forall q': nat :: q' < q ==> !MatchAt(text, labels, gap, target, start, li, q'));
      assert Leftmost(text, labels, gap, target, start, start, li, q);
    } else {
      FindFromSome(text, start + 1, labels, gap, target);
      var p: nat, li: nat, q: nat :| && start + 1 <= p
                      && MatchAt(text, labels, gap, target, p, li, q)
                      && Leftmost(text, labels, gap, target, start + 1, p, li, q)
                      && target(text, q) == FindFrom(text, start + 1, labels, gap, target);
      LeftmostBack(text, start, labels, gap, target, p, li, q);
    }
  }

  /** A match that is leftmost from `start + 1` is leftmost from `start` when no label at
      `start` can be completed. */
  lemma LeftmostBack(text: string, start: nat, labels: seq<string>, gap: char -> bool,
                     target: Target, p: nat, li: nat, q: nat)
    requires TryLabels(text, start, labels, gap, target).None?
    requires Leftmost(text, labels, gap, target, start + 1, p, li, q)
    ensures Leftmost(text, labels, gap, target, start, p, li, q)
  {
    TryLabelsNone(text, start, labels, gap, target);
  }
}
