/** `fixMarkdownLinks`, the same in index.js and fixMarkdown.js: every image link that
    the HTML-to-Markdown step broke across lines,

        [  <white space>  ![](<target>)  <white space>  ](<destination>)

    is rewritten to the compact `[![](<target>)](<destination>)`, by a global replace of
    `\[\s*\n*!\[\](?:\()([^\)]+)(?:\))\s*\n*\]\(([^)]+)\)`.

    The pattern is deterministic: `\s*` is greedy and is followed by a character that is
    not white space, and each `[^)]+` is followed by `)`, so giving characters back never
    completes a match that the greedy choice did not. `MatchLink` therefore reads it
    left to right with maximal runs. `Step`/`Accepts` state the same pattern as an
    automaton, which is what the idempotence proof reasons with. */
module LinkFix {
  import opened Wrappers
  import opened Text

  /** The pieces of one occurrence: the white space after `[`, the image target
      (group 1), the white space before `](`, and the link destination (group 2). */
  datatype LinkMatch = LinkMatch(space1: string, target: string, space2: string, dest: string)

  predicate AllSpace(w: string) {
    forall k :: 0 <= k < |w| ==> IsSpace(w[k])
  }

  /** `[^)]+`: non-empty and free of `)`. */
  predicate ParenFree(t: string) {
    |t| > 0 && forall k :: 0 <= k < |t| ==> t[k] != ')'
  }

  predicate WellFormed(m: LinkMatch) {
    AllSpace(m.space1) && ParenFree(m.target) && AllSpace(m.space2) && ParenFree(m.dest)
  }

  /** The text of an occurrence. */
  function LinkText(m: LinkMatch): string {
    "[" + m.space1 + "![](" + m.target + ")" + m.space2 + "](" + m.dest + ")"
  }

  /** How many characters an occurrence spans: the length of `LinkText(m)`. */
  function Size(m: LinkMatch): nat {
    9 + |m.space1| + |m.target| + |m.space2| + |m.dest|
  }

  /** The replacement `[![]($1)]($2)`. */
  function Canonical(target: string, dest: string): string {
    "[![](" + target + ")](" + dest + ")"
  }

  /** End of the white-space run that starts at `i`. */
  function SpaceEnd(s: string, i: nat): (j: nat)
    requires i <= |s|
    ensures i <= j <= |s|
    decreases |s| - i
  {
    if i < |s| && IsSpace(s[i]) then SpaceEnd(s, i + 1) else i
  }

  /** End of the run of characters other than `)` that starts at `i`. */
  function ParenEnd(s: string, i: nat): (j: nat)
    requires i <= |s|
    ensures i <= j <= |s|
    decreases |s| - i
  {
    if i < |s| && s[i] != ')' then ParenEnd(s, i + 1) else i
  }

  /** The run `SpaceEnd` finds is white space, and the character after it is not. */
  lemma {:induction false} SpaceEndRun(s: string, i: nat)
    requires i <= |s|
    ensures forall k :: i <= k < SpaceEnd(s, i) ==> IsSpace(s[k])
    ensures SpaceEnd(s, i) == |s| || !IsSpace(s[SpaceEnd(s, i)])
    decreases |s| - i
  {
    if i < |s| && IsSpace(s[i]) {
      SpaceEndRun(s, i + 1);
    }
  }

  /** The run `ParenEnd` finds holds no `)`, and the character after it is one. */
  lemma {:induction false} ParenEndRun(s: string, i: nat)
    requires i <= |s|
    ensures forall k :: i <= k < ParenEnd(s, i) ==> s[k] != ')'
    ensures ParenEnd(s, i) == |s| || s[ParenEnd(s, i)] == ')'
    decreases |s| - i
  {
    if i < |s| && s[i] != ')' {
      ParenEndRun(s, i + 1);
    }
  }

  /** Conversely, a run ends where its characters stop. */
  lemma {:induction false} SpaceEndAt(s: string, i: nat, j: nat)
    requires i <= j <= |s|
    requires forall k :: i <= k < j ==> IsSpace(s[k])
    requires j == |s| || !IsSpace(s[j])
    ensures SpaceEnd(s, i) == j
    decreases j - i
  {
    if i < j {
      SpaceEndAt(s, i + 1, j);
    }
  }

  lemma {:induction false} ParenEndAt(s: string, i: nat, j: nat)
    requires i <= j <= |s|
    requires forall k :: i <= k < j ==> s[k] != ')'
    requires j == |s| || s[j] == ')'
    ensures ParenEnd(s, i) == j
    decreases j - i
  {
    if i < j {
      ParenEndAt(s, i + 1, j);
    }
  }

  // ------------------------------------------------------------ the scanner

  /** Where the pieces of an occurrence end: the first white space at the `!` of `![](`,
      group 1 at its `)`, the second white space at `](`, group 2 at the final `)`. */
  datatype Ends = Ends(space1: nat, target: nat, space2: nat, dest: nat)

  /** The order of the ends found by the stages from `st` on, read from position `i`
      of a text of length `n`. */
  predicate Ordered(e: Ends, st: nat, i: nat, n: nat) {
    && (st == 0 ==> i <= e.space1 && e.space1 + 4 < e.target)
    && (st == 1 ==> i < e.target)
    && (st <= 1 ==> e.target + 1 <= e.space2)
    && (st == 2 ==> i <= e.space2)
    && (st <= 2 ==> e.space2 + 2 < e.dest)
    && (st == 3 ==> i < e.dest)
    && e.dest < n
  }

  /** The scanner reads an occurrence after its `[` in four stages: stage 0 the white
      space and `![](`, stage 1 group 1 and its `)`, stage 2 the white space and `](`,
      stage 3 group 2 and the final `)`. Each stage fills in where its own piece ends;
      the ends of earlier stages are left 0. */
  function Scan(s: string, st: nat, i: nat): (r: Option<Ends>)
    requires st <= 3 && i <= |s|
    ensures r.Some? ==> Ordered(r.value, st, i, |s|)
    decreases 3 - st
  {
    if st == 0 then
      var a := SpaceEnd(s, i);
      if a + 3 < |s| && s[a] == '!' && s[a + 1] == '[' && s[a + 2] == ']' && s[a + 3] == '(' then
        match Scan(s, 1, a + 4)
        case Some(r) => Some(r.(space1 := a))
        case None => None
      else None
    else if st == 1 then
      var b := ParenEnd(s, i);
      if b == i || b == |s| then None
      else
        match Scan(s, 2, b + 1)
        case Some(r) => Some(r.(target := b))
        case None => None
    else if st == 2 then
      var c := SpaceEnd(s, i);
      if c + 1 < |s| && s[c] == ']' && s[c + 1] == '(' then
        match Scan(s, 3, c + 2)
        case Some(r) => Some(r.(space2 := c))
        case None => None
      else None
    else
      var e := ParenEnd(s, i);
      if e == i || e == |s| then None else Some(Ends(0, 0, 0, e))
  }

  /** The pieces between the ends of an occurrence that starts at the front of `s`. */
  function Pieces(s: string, e: Ends): (m: LinkMatch)
    requires Ordered(e, 0, 1, |s|)
    ensures Size(m) == e.dest + 1
  {
    LinkMatch(s[1..e.space1], s[e.space1 + 4..e.target], s[e.target + 1..e.space2],
              s[e.space2 + 2..e.dest])
  }

  /** The occurrence of the pattern at the start of `s`, if there is one. */
  function MatchLink(s: string): (r: Option<LinkMatch>)
    ensures r.Some? ==> Size(r.value) <= |s|
  {
    if |s| == 0 || s[0] != '[' then None
    else match Scan(s, 0, 1)
      case Some(e) => Some(Pieces(s, e))
      case None => None
  }

  /** `text.replace(regex, "[![]($1)]($2)")` with the global flag: scanning left to
      right, each occurrence is replaced and the scan resumes after it; the other
      characters are copied. */
  function FixMarkdownLinks(s: string): (r: string)
    ensures |r| <= |s|
    decreases |s|
  {
    if |s| == 0 then ""
    else match MatchLink(s)
      case Some(m) => Canonical(m.target, m.dest) + FixMarkdownLinks(s[Size(m)..])
      case None => [s[0]] + FixMarkdownLinks(s[1..])
  }

  /** One step of the replace where no occurrence starts. */
  lemma FixCopiesOne(s: string)
    requires |s| > 0 && MatchLink(s).None?
    ensures FixMarkdownLinks(s) == [s[0]] + FixMarkdownLinks(s[1..])
  {
  }

  /** One step of the replace where an occurrence starts. */
  lemma FixReplacesOne(s: string)
    requires MatchLink(s).Some?
    ensures var m := MatchLink(s).value;
            FixMarkdownLinks(s) == Canonical(m.target, m.dest) + FixMarkdownLinks(s[Size(m)..])
  {
  }

  // ------------------------------------------------------------ what the scanner reads

  /** One stage at a time: a successful stage ends its run where the next stage
      succeeds, and adds its own end to what the next stage returns. */
  lemma ScanSpace1Step(s: string, i: nat)
    requires i <= |s| && Scan(s, 0, i).Some?
    ensures var a := SpaceEnd(s, i);
            && a + 3 < |s| && s[a] == '!' && s[a + 1] == '[' && s[a + 2] == ']' && s[a + 3] == '('
            && Scan(s, 1, a + 4).Some?
            && Scan(s, 0, i).value == Scan(s, 1, a + 4).value.(space1 := a)
  {
  }

  lemma ScanTargetStep(s: string, i: nat)
    requires i <= |s| && Scan(s, 1, i).Some?
    ensures var b := ParenEnd(s, i);
            && i < b < |s| && Scan(s, 2, b + 1).Some?
            && Scan(s, 1, i).value == Scan(s, 2, b + 1).value.(target := b)
  {
  }

  lemma ScanSpace2Step(s: string, i: nat)
    requires i <= |s| && Scan(s, 2, i).Some?
    ensures var c := SpaceEnd(s, i);
            && c + 1 < |s| && s[c] == ']' && s[c + 1] == '(' && Scan(s, 3, c + 2).Some?
            && Scan(s, 2, i).value == Scan(s, 3, c + 2).value.(space2 := c)
  {
  }

  lemma ScanDestStep(s: string, i: nat)
    requires i <= |s| && Scan(s, 3, i).Some?
    ensures var e := ParenEnd(s, i);
            i < e < |s| && Scan(s, 3, i).value == Ends(0, 0, 0, e)
  {
  }

  /** The separators after the ends of an occurrence that starts at the front of `s`. */
  predicate Separated(s: string, e: Ends) {
    && Ordered(e, 0, 1, |s|)
    && s[e.space1] == '!' && s[e.space1 + 1] == '[' && s[e.space1 + 2] == ']'
    && s[e.space1 + 3] == '(' && s[e.target] == ')'
    && s[e.space2] == ']' && s[e.space2 + 1] == '(' && s[e.dest] == ')'
  }

  /** Each end is the end of the maximal run that starts after the previous separator. */
  predicate Maximal(s: string, e: Ends)
    requires Ordered(e, 0, 1, |s|)
  {
    && e.space1 == SpaceEnd(s, 1) && e.target == ParenEnd(s, e.space1 + 4)
    && e.space2 == SpaceEnd(s, e.target + 1) && e.dest == ParenEnd(s, e.space2 + 2)
  }

  /** What the stages found, from the last to the first. */
  lemma ScanEndsDest(s: string, i: nat)
    requires i <= |s| && Scan(s, 3, i).Some?
    ensures var e := Scan(s, 3, i).value; e.dest == ParenEnd(s, i) && s[e.dest] == ')'
  {
    ScanDestStep(s, i);
    ParenEndRun(s, i);
  }

  lemma ScanEndsSpace2(s: string, i: nat)
    requires i <= |s| && Scan(s, 2, i).Some?
    ensures var e := Scan(s, 2, i).value;
            && e.space2 == SpaceEnd(s, i) && s[e.space2] == ']' && s[e.space2 + 1] == '('
            && e.dest == ParenEnd(s, e.space2 + 2) && s[e.dest] == ')'
  {
    ScanSpace2Step(s, i);
    ScanEndsDest(s, SpaceEnd(s, i) + 2);
  }

  lemma ScanEndsTarget(s: string, i: nat)
    requires i <= |s| && Scan(s, 1, i).Some?
    ensures var e := Scan(s, 1, i).value;
            && e.target == ParenEnd(s, i) && s[e.target] == ')'
            && e.space2 == SpaceEnd(s, e.target + 1) && s[e.space2] == ']' && s[e.space2 + 1] == '('
            && e.dest == ParenEnd(s, e.space2 + 2) && s[e.dest] == ')'
  {
    ScanTargetStep(s, i);
    ParenEndRun(s, i);
    ScanEndsSpace2(s, ParenEnd(s, i) + 1);
  }

  /** The ends `MatchLink` finds are separated and maximal. */
  lemma ScanEnds(s: string)
    requires 1 <= |s| && Scan(s, 0, 1).Some?
    ensures Separated(s, Scan(s, 0, 1).value) && Maximal(s, Scan(s, 0, 1).value)
  {
    ScanSpace1Step(s, 1);
    ScanEndsTarget(s, SpaceEnd(s, 1) + 4);
  }

  /** A prefix cut in two. */
  lemma PrefixSplit(s: string, j: nat, k: nat)
    requires j <= k <= |s|
    ensures s[..k] == s[..j] + s[j..k]
  {
  }

  /** A prefix extended by the character after it. */
  lemma PrefixPush(s: string, k: nat)
    requires k < |s|
    ensures s[..k + 1] == s[..k] + [s[k]]
  {
  }

  /** The front of a text, read off the separators it holds between the given ends. */
  lemma TextBetween(s: string, e: Ends)
    requires Separated(s, e) && s[0] == '['
    ensures s[..e.dest + 1] == LinkText(Pieces(s, e))
  {
    var a, b, c, d := e.space1, e.target, e.space2, e.dest;
    assert s[..1] == "[";
    PrefixSplit(s, 1, a);
    PrefixPush(s, a);
    PrefixPush(s, a + 1);
    PrefixPush(s, a + 2);
    PrefixPush(s, a + 3);
    assert s[..a + 4] == s[..a] + "![](";
    PrefixSplit(s, a + 4, b);
    PrefixPush(s, b);
    PrefixSplit(s, b + 1, c);
    PrefixPush(s, c);
    PrefixPush(s, c + 1);
    assert s[..c + 2] == s[..c] + "](";
    PrefixSplit(s, c + 2, d);
    PrefixPush(s, d);
    assert s[..d + 1] == s[..c + 2] + s[c + 2..d] + ")";
  }

  /** An occurrence found by `MatchLink` is exactly the text of what it returns: the
      pattern consumes `LinkText` and nothing else. */
  lemma MatchLinkPrefix(s: string)
    requires MatchLink(s).Some?
    ensures s == LinkText(MatchLink(s).value) + s[Size(MatchLink(s).value)..]
  {
    ScanEnds(s);
    PiecesPrefix(s, Scan(s, 0, 1).value);
  }

  /** The same, on the ends alone. */
  lemma PiecesPrefix(s: string, e: Ends)
    requires Separated(s, e) && s[0] == '['
    ensures s == LinkText(Pieces(s, e)) + s[e.dest + 1..]
  {
    TextBetween(s, e);
    PrefixRest(s, e.dest + 1);
  }

  /** A text is its prefix followed by the rest. */
  lemma PrefixRest(s: string, k: nat)
    requires k <= |s|
    ensures s == s[..k] + s[k..]
  {
  }

  /** A slice read character by character. */
  lemma SliceAt(s: string, i: nat, j: nat)
    requires i <= j <= |s|
    ensures forall k :: 0 <= k < j - i ==> s[i..j][k] == s[i + k]
  {
  }

  /** The run `SpaceEnd` finds is white space; the run `ParenEnd` finds holds no `)`. */
  lemma SpaceRun(s: string, i: nat)
    requires i <= |s|
    ensures AllSpace(s[i..SpaceEnd(s, i)])
  {
    SpaceEndRun(s, i);
    SliceAt(s, i, SpaceEnd(s, i));
  }

  lemma ParenRun(s: string, i: nat)
    requires i <= |s| && i < ParenEnd(s, i)
    ensures ParenFree(s[i..ParenEnd(s, i)])
  {
    ParenEndRun(s, i);
    SliceAt(s, i, ParenEnd(s, i));
  }

  /** Where `MatchLink` finds an occurrence, its pieces have the shape the pattern asks for. */
  lemma MatchLinkWellFormed(s: string)
    requires MatchLink(s).Some?
    ensures WellFormed(MatchLink(s).value)
  {
    ScanEnds(s);
    PiecesWellFormed(s, Scan(s, 0, 1).value);
  }

  /** The same, on the ends alone. */
  lemma PiecesWellFormed(s: string, e: Ends)
    requires Ordered(e, 0, 1, |s|) && Maximal(s, e)
    ensures WellFormed(Pieces(s, e))
  {
    SpaceRun(s, 1);
    ParenRun(s, e.space1 + 4);
    SpaceRun(s, e.target + 1);
    ParenRun(s, e.space2 + 2);
  }

  /** Where stage `st` of an occurrence starts in its text. */
  function Pos(m: LinkMatch, st: nat): nat {
    1 + (if st >= 1 then |m.space1| + 4 else 0) + (if st >= 2 then |m.target| + 1 else 0)
    + (if st >= 3 then |m.space2| + 2 else 0)
  }

  /** Where the pieces of an occurrence end in its text. */
  function EndsOf(m: LinkMatch): Ends {
    Ends(Pos(m, 1) - 4, Pos(m, 2) - 1, Pos(m, 3) - 2, Size(m) - 1)
  }

  /** Where each piece of an occurrence sits in the text that starts with it, and what
      follows each piece. */
  lemma LinkTextSpace1(m: LinkMatch, x: string)
    ensures var s := LinkText(m) + x;
            && Pos(m, 1) - 1 < |s| && s[0] == '['
            && (forall k :: Pos(m, 0) <= k < Pos(m, 1) - 4 ==> s[k] == m.space1[k - Pos(m, 0)])
            && s[Pos(m, 1) - 4] == '!' && s[Pos(m, 1) - 3] == '[' && s[Pos(m, 1) - 2] == ']'
            && s[Pos(m, 1) - 1] == '('
  {
  }

  lemma LinkTextTarget(m: LinkMatch, x: string)
    ensures var s := LinkText(m) + x;
            && Pos(m, 2) - 1 < |s|
            && (forall k :: Pos(m, 1) <= k < Pos(m, 2) - 1 ==> s[k] == m.target[k - Pos(m, 1)])
            && s[Pos(m, 2) - 1] == ')'
  {
  }

  lemma LinkTextSpace2(m: LinkMatch, x: string)
    ensures var s := LinkText(m) + x;
            && Pos(m, 3) - 1 < |s|
            && (forall k :: Pos(m, 2) <= k < Pos(m, 3) - 2 ==> s[k] == m.space2[k - Pos(m, 2)])
            && s[Pos(m, 3) - 2] == ']' && s[Pos(m, 3) - 1] == '('
  {
  }

  lemma LinkTextDest(m: LinkMatch, x: string)
    ensures var s := LinkText(m) + x;
            && Pos(m, 3) + |m.dest| + 1 == Size(m) == |LinkText(m)| && Size(m) <= |s|
            && (forall k :: Pos(m, 3) <= k < Size(m) - 1 ==> s[k] == m.dest[k - Pos(m, 3)])
            && s[Size(m) - 1] == ')'
  {
  }

  /** A slice that agrees with `p` character by character is `p`. */
  lemma SliceIs(s: string, i: nat, j: nat, p: string)
    requires i <= j <= |s| && j - i == |p|
    requires forall k :: i <= k < j ==> s[k] == p[k - i]
    ensures s[i..j] == p
  {
    assert forall k :: 0 <= k < |p| ==> s[i..j][k] == s[i + k];
  }

  /** In the text of a well-formed occurrence, each run ends where its piece does. */
  lemma RunsSpace1(m: LinkMatch, x: string)
    requires WellFormed(m)
    ensures var s := LinkText(m) + x;
            && Pos(m, 1) <= |s| && SpaceEnd(s, Pos(m, 0)) == Pos(m, 1) - 4
            && s[Pos(m, 0)..Pos(m, 1) - 4] == m.space1
  {
    var s := LinkText(m) + x;
    LinkTextSpace1(m, x);
    SpaceEndAt(s, Pos(m, 0), Pos(m, 1) - 4);
    SliceIs(s, Pos(m, 0), Pos(m, 1) - 4, m.space1);
  }

  lemma RunsTarget(m: LinkMatch, x: string)
    requires WellFormed(m)
    ensures var s := LinkText(m) + x;
            && Pos(m, 2) <= |s| && ParenEnd(s, Pos(m, 1)) == Pos(m, 2) - 1
            && s[Pos(m, 1)..Pos(m, 2) - 1] == m.target
  {
    var s := LinkText(m) + x;
    LinkTextTarget(m, x);
    ParenEndAt(s, Pos(m, 1), Pos(m, 2) - 1);
    SliceIs(s, Pos(m, 1), Pos(m, 2) - 1, m.target);
  }

  lemma RunsSpace2(m: LinkMatch, x: string)
    requires WellFormed(m)
    ensures var s := LinkText(m) + x;
            && Pos(m, 3) <= |s| && SpaceEnd(s, Pos(m, 2)) == Pos(m, 3) - 2
            && s[Pos(m, 2)..Pos(m, 3) - 2] == m.space2
  {
    var s := LinkText(m) + x;
    LinkTextSpace2(m, x);
    SpaceEndAt(s, Pos(m, 2), Pos(m, 3) - 2);
    SliceIs(s, Pos(m, 2), Pos(m, 3) - 2, m.space2);
  }

  lemma RunsDest(m: LinkMatch, x: string)
    requires WellFormed(m)
    ensures var s := LinkText(m) + x;
            && Size(m) <= |s| && ParenEnd(s, Pos(m, 3)) == Size(m) - 1
            && s[Pos(m, 3)..Size(m) - 1] == m.dest
  {
    var s := LinkText(m) + x;
    LinkTextDest(m, x);
    ParenEndAt(s, Pos(m, 3), Size(m) - 1);
    SliceIs(s, Pos(m, 3), Size(m) - 1, m.dest);
  }

  /** Conversely, a stage succeeds when its run ends where the next stage succeeds. */
  lemma ScanSpace1At(s: string, i: nat, a: nat, r: Ends)
    requires i <= a && a + 3 < |s| && SpaceEnd(s, i) == a
    requires s[a] == '!' && s[a + 1] == '[' && s[a + 2] == ']' && s[a + 3] == '('
    requires Scan(s, 1, a + 4) == Some(r)
    ensures Scan(s, 0, i) == Some(r.(space1 := a))
  {
  }

  lemma ScanTargetAt(s: string, i: nat, b: nat, r: Ends)
    requires i < b < |s| && ParenEnd(s, i) == b && Scan(s, 2, b + 1) == Some(r)
    ensures Scan(s, 1, i) == Some(r.(target := b))
  {
  }

  lemma ScanSpace2At(s: string, i: nat, c: nat, r: Ends)
    requires i <= c && c + 1 < |s| && SpaceEnd(s, i) == c && s[c] == ']' && s[c + 1] == '('
    requires Scan(s, 3, c + 2) == Some(r)
    ensures Scan(s, 2, i) == Some(r.(space2 := c))
  {
  }

  lemma ScanDestAt(s: string, i: nat, e: nat)
    requires i < e < |s| && ParenEnd(s, i) == e
    ensures Scan(s, 3, i) == Some(Ends(0, 0, 0, e))
  {
  }

  /** Conversely, the scanner finds the ends of an occurrence, stage by stage from the last. */
  lemma ScanFromEnds(s: string, e: Ends)
    requires Separated(s, e) && Maximal(s, e)
    ensures Scan(s, 0, 1) == Some(e)
  {
    ScanDestAt(s, e.space2 + 2, e.dest);
    ScanSpace2At(s, e.target + 1, e.space2, Ends(0, 0, 0, e.dest));
    ScanTargetAt(s, e.space1 + 4, e.target, Ends(0, 0, e.space2, e.dest));
    ScanSpace1At(s, 1, e.space1, Ends(0, e.target, e.space2, e.dest));
  }

  /** The text of a well-formed occurrence is separated where its pieces end, and its
      runs end there. */
  lemma LinkTextSeparated(m: LinkMatch, x: string)
    requires WellFormed(m)
    ensures Separated(LinkText(m) + x, EndsOf(m))
  {
    LinkTextSpace1(m, x);
    LinkTextTarget(m, x);
    LinkTextSpace2(m, x);
    LinkTextDest(m, x);
  }

  lemma LinkTextMaximal(m: LinkMatch, x: string)
    requires WellFormed(m)
    ensures Ordered(EndsOf(m), 0, 1, |LinkText(m) + x|)
    ensures Maximal(LinkText(m) + x, EndsOf(m))
  {
    RunsSpace1(m, x);
    RunsTarget(m, x);
    RunsSpace2(m, x);
    RunsDest(m, x);
  }

  /** The pieces between the ends of a well-formed occurrence are its own. */
  lemma PiecesOfText(m: LinkMatch, x: string)
    requires WellFormed(m)
    ensures Ordered(EndsOf(m), 0, 1, |LinkText(m) + x|)
    ensures Pieces(LinkText(m) + x, EndsOf(m)) == m
  {
    RunsSpace1(m, x);
    RunsTarget(m, x);
    RunsSpace2(m, x);
    RunsDest(m, x);
  }

  /** A well-formed occurrence at the front of a text is what `MatchLink` finds there,
      whatever follows it. */
  lemma MatchLinkText(m: LinkMatch, x: string)
    requires WellFormed(m)
    ensures MatchLink(LinkText(m) + x) == Some(m)
  {
    LinkTextSeparated(m, x);
    LinkTextMaximal(m, x);
    LinkTextSpace1(m, x);
    ScanFromEnds(LinkText(m) + x, EndsOf(m));
    PiecesOfText(m, x);
  }

  /** The replacement is itself an occurrence, with no white space, of the same groups. */
  lemma CanonicalIsLinkText(target: string, dest: string)
    ensures Canonical(target, dest) == LinkText(LinkMatch("", target, "", dest))
  {
  }

  // ------------------------------------------------------------ the pattern as an automaton

  /** What the pattern expects next: `Open` before the `[`, `Space1` in the first white
      space, `Alt…`/`ParenOpen` in `![](`, `Target0`/`Target` in group 1 (before and after
      its first character), `Space2`, `DestParen` before the second `(`, `Dest0`/`Dest`
      in group 2, and `Done` once the final `)` is read. */
  datatype Phase = Open | Space1 | AltOpen | AltClose | ParenOpen | Target0 | Target
                 | Space2 | DestParen | Dest0 | Dest | Done

  /** One character; None when the pattern cannot go on. `Done` stays `Done`. */
  function Step(q: Phase, c: char): Option<Phase> {
    match q
    case Open => if c == '[' then Some(Space1) else None
    case Space1 => if IsSpace(c) then Some(Space1) else if c == '!' then Some(AltOpen) else None
    case AltOpen => if c == '[' then Some(AltClose) else None
    case AltClose => if c == ']' then Some(ParenOpen) else None
    case ParenOpen => if c == '(' then Some(Target0) else None
    case Target0 => if c != ')' then Some(Target) else None
    case Target => if c != ')' then Some(Target) else Some(Space2)
    case Space2 => if IsSpace(c) then Some(Space2) else if c == ']' then Some(DestParen) else None
    case DestParen => if c == '(' then Some(Dest0) else None
    case Dest0 => if c != ')' then Some(Dest) else None
    case Dest => if c != ')' then Some(Dest) else Some(Done)
    case Done => Some(Done)
  }

  /** Some prefix of `s` takes the automaton from `q` to `Done`. */
  predicate Accepts(q: Phase, s: string)
    decreases |s|
  {
    q == Done || (|s| > 0 && Step(q, s[0]).Some? && Accepts(Step(q, s[0]).value, s[1..]))
  }

  /** The phase after reading all of `s`, None if the automaton got stuck. */
  function Run(q: Phase, s: string): Option<Phase>
    decreases |s|
  {
    if |s| == 0 then Some(q)
    else match Step(q, s[0])
      case None => None
      case Some(p) => Run(p, s[1..])
  }

  lemma {:induction false} RunAppend(q: Phase, u: string, v: string)
    ensures Run(q, u + v) == match Run(q, u) case None => None case Some(p) => Run(p, v)
    decreases |u|
  {
    if |u| == 0 {
      assert u + v == v;
    } else {
      assert (u + v)[0] == u[0];
      assert (u + v)[1..] == u[1..] + v;
      if Step(q, u[0]).Some? {
        RunAppend(Step(q, u[0]).value, u[1..], v);
      }
    }
  }

  /** Acceptance after a prefix depends only on the phase the prefix leads to. */
  lemma {:induction false} AcceptsAppend(q: Phase, u: string, v: string)
    ensures Accepts(q, u + v) == match Run(q, u) case None => false case Some(p) => Accepts(p, v)
    decreases |u|
  {
    if |u| == 0 {
      assert u + v == v;
    } else if q == Done {
      DoneStays(u);
    } else {
      assert (u + v)[0] == u[0];
      assert (u + v)[1..] == u[1..] + v;
      if Step(q, u[0]).Some? {
        AcceptsAppend(Step(q, u[0]).value, u[1..], v);
      }
    }
  }

  lemma {:induction false} DoneStays(u: string)
    ensures Run(Done, u) == Some(Done)
    decreases |u|
  {
    if |u| > 0 {
      DoneStays(u[1..]);
    }
  }

  /** Inside a run of one class the phase does not change. */
  lemma {:induction false} RunStays(q: Phase, w: string)
    requires q in {Space1, Space2} ==> AllSpace(w)
    requires q in {Target, Dest} ==> forall k :: 0 <= k < |w| ==> w[k] != ')'
    requires q in {Space1, Space2, Target, Dest, Done}
    ensures Run(q, w) == Some(q)
    decreases |w|
  {
    if |w| > 0 {
      RunStays(q, w[1..]);
    }
  }

  lemma RunCons(q: Phase, c: char, v: string)
    ensures Run(q, [c] + v) == match Step(q, c) case None => None case Some(p) => Run(p, v)
  {
    assert ([c] + v)[0] == c;
    assert ([c] + v)[1..] == v;
  }

  /** White space and `![](` are not `)`, so group 1 and group 2 read through them. */
  lemma RunThrough(q: Phase, m: LinkMatch)
    requires WellFormed(m)
    requires q in {Target, Dest}
    ensures Run(q, m.space1 + "![](" + m.target) == Some(q)
  {
    var w := m.space1 + "![](" + m.target;
    forall k | 0 <= k < |w| ensures w[k] != ')' {
      if k < |m.space1| {
        assert w[k] == m.space1[k];
      } else if k >= |m.space1| + 4 {
        assert w[k] == m.target[k - |m.space1| - 4];
      }
    }
    RunStays(q, w);
  }

  /** Group 2 and its closing `)`, read from just after the second `(`. */
  lemma RunDest(m: LinkMatch)
    requires WellFormed(m)
    ensures Run(Dest0, m.dest + ")") == Some(Done)
  {
    var d := m.dest;
    assert d + ")" == [d[0]] + (d[1..] + ")");
    RunCons(Dest0, d[0], d[1..] + ")");
    RunStays(Dest, d[1..]);
    RunAppend(Dest, d[1..], ")");
    RunCons(Dest, ')', []);
    assert ")" == [')'] + [];
  }

  /** The tail `)` white space `](` group 2 `)` of an occurrence, read from group 1. */
  lemma RunTail(m: LinkMatch)
    requires WellFormed(m)
    ensures Run(Target, ")" + m.space2 + "](" + m.dest + ")") == Some(Done)
  {
    var t4 := m.dest + ")";
    var t3 := "(" + t4;
    var t2 := "]" + t3;
    var t1 := m.space2 + t2;
    assert ")" + m.space2 + "](" + m.dest + ")" == [')'] + t1;
    RunCons(Target, ')', t1);
    RunStays(Space2, m.space2);
    RunAppend(Space2, m.space2, t2);
    assert t2 == [']'] + t3;
    RunCons(Space2, ']', t3);
    assert t3 == ['('] + t4;
    RunCons(DestParen, '(', t4);
    RunDest(m);
  }

  /** From the white space after `[`, an occurrence's remaining text completes it. */
  lemma RunFromSpace1(m: LinkMatch)
    requires WellFormed(m)
    ensures Run(Space1, m.space1 + "![](" + m.target + ")" + m.space2 + "](" + m.dest + ")") == Some(Done)
  {
    var tail := ")" + m.space2 + "](" + m.dest + ")";
    var t := m.target;
    var b2 := [t[0]] + (t[1..] + tail);
    var b1 := ['!'] + (['['] + ([']'] + (['('] + b2)));
    assert m.space1 + "![](" + m.target + ")" + m.space2 + "](" + m.dest + ")" == m.space1 + b1;
    RunStays(Space1, m.space1);
    RunAppend(Space1, m.space1, b1);
    RunCons(Space1, '!', ['['] + ([']'] + (['('] + b2)));
    RunCons(AltOpen, '[', [']'] + (['('] + b2));
    RunCons(AltClose, ']', ['('] + b2);
    RunCons(ParenOpen, '(', b2);
    RunCons(Target0, t[0], t[1..] + tail);
    RunStays(Target, t[1..]);
    RunAppend(Target, t[1..], tail);
    RunTail(m);
  }

  /** From inside group 1 or group 2, an occurrence's text after `[` ends the match. */
  lemma RunFromGroup(q: Phase, m: LinkMatch)
    requires WellFormed(m)
    requires q in {Target, Dest}
    ensures Run(q, m.space1 + "![](" + m.target + ")" + m.space2 + "](" + m.dest + ")") == Some(Done)
  {
    var body := m.space1 + "![](" + m.target;
    var tail := ")" + m.space2 + "](" + m.dest + ")";
    assert m.space1 + "![](" + m.target + ")" + m.space2 + "](" + m.dest + ")" == body + tail;
    RunThrough(q, m);
    RunAppend(q, body, tail);
    if q == Target {
      RunTail(m);
    } else {
      var rest := m.space2 + "](" + m.dest + ")";
      assert tail == [')'] + rest;
      RunCons(Dest, ')', rest);
      DoneStays(rest);
    }
  }

  lemma LinkTextCons(m: LinkMatch)
    ensures LinkText(m) == ['['] + (m.space1 + "![](" + m.target + ")" + m.space2 + "](" + m.dest + ")")
  {
  }

  /** From any phase, an occurrence takes the automaton to the same place: `Done` from
      the phases that read `[` as a start or as part of a group, stuck otherwise. */
  lemma RunLinkText(q: Phase, m: LinkMatch)
    requires WellFormed(m)
    ensures Run(q, LinkText(m))
            == if q in {Open, Target0, Target, Dest0, Dest, Done} then Some(Done) else None
  {
    var after := m.space1 + "![](" + m.target + ")" + m.space2 + "](" + m.dest + ")";
    LinkTextCons(m);
    RunCons(q, '[', after);
    match q
    case Open => RunFromSpace1(m);
    case Target0 => RunFromGroup(Target, m);
    case Target => RunFromGroup(Target, m);
    case Dest0 => RunFromGroup(Dest, m);
    case Dest => RunFromGroup(Dest, m);
    case Done => DoneStays(after);
    case _ =>
  }

  // ------------------------------------------------------------ scanner and automaton agree

  /** `Accepts` on the suffix of `s` from `i`, read by position. */
  predicate AcceptsFrom(q: Phase, s: string, i: nat)
    requires i <= |s|
    decreases |s| - i
  {
    q == Done || (i < |s| && Step(q, s[i]).Some? && AcceptsFrom(Step(q, s[i]).value, s, i + 1))
  }

  lemma {:induction false} AcceptsFromDrop(q: Phase, s: string, i: nat)
    requires i <= |s|
    ensures Accepts(q, s[i..]) == AcceptsFrom(q, s, i)
    decreases |s| - i
  {
    if i < |s| && q != Done {
      assert s[i..][0] == s[i];
      assert s[i..][1..] == s[i + 1..];
      if Step(q, s[i]).Some? {
        AcceptsFromDrop(Step(q, s[i]).value, s, i + 1);
      }
    }
  }

  /** Each stage of the scanner, one character at a time. */
  lemma ScanDestFirst(s: string, i: nat)
    requires i <= |s|
    ensures Scan(s, 3, i).Some? <==> i < |s| && s[i] != ')' && ParenEnd(s, i + 1) < |s|
  {
    if i < |s| && s[i] != ')' {
      assert ParenEnd(s, i) == ParenEnd(s, i + 1);
    }
  }

  lemma ScanSpace2First(s: string, i: nat)
    requires i <= |s|
    ensures Scan(s, 2, i).Some?
            <==> && i < |s|
                 && if IsSpace(s[i]) then Scan(s, 2, i + 1).Some?
                    else s[i] == ']' && i + 1 < |s| && s[i + 1] == '(' && Scan(s, 3, i + 2).Some?
  {
    if i < |s| && IsSpace(s[i]) {
      assert SpaceEnd(s, i) == SpaceEnd(s, i + 1);
    }
  }

  lemma ScanTargetFirst(s: string, i: nat)
    requires i <= |s|
    ensures Scan(s, 1, i).Some?
            <==> i < |s| && s[i] != ')' && var b := ParenEnd(s, i + 1); b < |s| && Scan(s, 2, b + 1).Some?
  {
    if i < |s| && s[i] != ')' {
      assert ParenEnd(s, i) == ParenEnd(s, i + 1);
    }
  }

  lemma ScanSpace1Skip(s: string, i: nat)
    requires i < |s| && IsSpace(s[i])
    ensures Scan(s, 0, i).Some? == Scan(s, 0, i + 1).Some?
  {
    assert SpaceEnd(s, i) == SpaceEnd(s, i + 1);
  }

  lemma ScanSpace1Here(s: string, i: nat)
    requires i <= |s| && (i == |s| || !IsSpace(s[i]))
    ensures Scan(s, 0, i).Some?
            <==> && i + 3 < |s| && s[i] == '!' && s[i + 1] == '[' && s[i + 2] == ']'
                 && s[i + 3] == '(' && Scan(s, 1, i + 4).Some?
  {
    assert SpaceEnd(s, i) == i;
  }

  /** The automaton and the scanner agree phase by phase. */
  lemma {:induction false} AcceptsDest(s: string, i: nat)
    requires i <= |s|
    ensures AcceptsFrom(Dest, s, i) <==> ParenEnd(s, i) < |s|
    decreases |s| - i
  {
    if i < |s| && s[i] != ')' {
      AcceptsDest(s, i + 1);
    }
  }

  lemma AcceptsDest0(s: string, i: nat)
    requires i <= |s|
    ensures AcceptsFrom(Dest0, s, i) <==> Scan(s, 3, i).Some?
  {
    ScanDestFirst(s, i);
    if i < |s| {
      AcceptsDest(s, i + 1);
    }
  }

  lemma {:induction false} AcceptsSpace2(s: string, i: nat)
    requires i <= |s|
    ensures AcceptsFrom(Space2, s, i) <==> Scan(s, 2, i).Some?
    decreases |s| - i
  {
    ScanSpace2First(s, i);
    if i < |s| {
      if IsSpace(s[i]) {
        AcceptsSpace2(s, i + 1);
      } else if s[i] == ']' && i + 1 < |s| {
        AcceptsDest0(s, i + 2);
      }
    }
  }

  lemma {:induction false} AcceptsTarget(s: string, i: nat)
    requires i <= |s|
    ensures AcceptsFrom(Target, s, i)
            <==> var b := ParenEnd(s, i); b < |s| && Scan(s, 2, b + 1).Some?
    decreases |s| - i
  {
    if i < |s| {
      if s[i] != ')' {
        AcceptsTarget(s, i + 1);
      } else {
        AcceptsSpace2(s, i + 1);
      }
    }
  }

  lemma AcceptsTarget0(s: string, i: nat)
    requires i <= |s|
    ensures AcceptsFrom(Target0, s, i) <==> Scan(s, 1, i).Some?
  {
    ScanTargetFirst(s, i);
    if i < |s| {
      AcceptsTarget(s, i + 1);
    }
  }

  lemma AcceptsAlt(s: string, i: nat)
    requires i < |s| && s[i] == '!'
    ensures AcceptsFrom(AltOpen, s, i + 1)
            <==> && i + 3 < |s| && s[i + 1] == '[' && s[i + 2] == ']' && s[i + 3] == '('
                 && Scan(s, 1, i + 4).Some?
  {
    if i + 3 < |s| && s[i + 1] == '[' && s[i + 2] == ']' && s[i + 3] == '(' {
      AcceptsTarget0(s, i + 4);
      assert AcceptsFrom(ParenOpen, s, i + 3) == AcceptsFrom(Target0, s, i + 4);
      assert AcceptsFrom(AltClose, s, i + 2) == AcceptsFrom(ParenOpen, s, i + 3);
    } else if i + 2 < |s| && s[i + 1] == '[' && s[i + 2] == ']' {
      assert !AcceptsFrom(ParenOpen, s, i + 3);
    }
  }

  lemma {:induction false} AcceptsSpace1(s: string, i: nat)
    requires i <= |s|
    ensures AcceptsFrom(Space1, s, i) <==> Scan(s, 0, i).Some?
    decreases |s| - i
  {
    if i < |s| && IsSpace(s[i]) {
      ScanSpace1Skip(s, i);
      AcceptsSpace1(s, i + 1);
    } else {
      ScanSpace1Here(s, i);
      if i < |s| && s[i] == '!' {
        AcceptsAlt(s, i);
      }
    }
  }

  /** `MatchLink` finds an occurrence at the front of `s` exactly when the automaton,
      started at `Open`, accepts a prefix of `s`. */
  lemma MatchLinkAccepts(s: string)
    ensures MatchLink(s).Some? <==> Accepts(Open, s)
  {
    AcceptsFromDrop(Open, s, 0);
    assert s[0..] == s;
    if |s| > 0 {
      AcceptsSpace1(s, 1);
    }
  }

  // ------------------------------------------------------------ properties of the replace

  /** After an occurrence the automaton is done or stuck, whether the occurrence is broken
      across lines or compact, so what follows it does not matter. */
  lemma AcceptsReplaced(q: Phase, m: LinkMatch, rest: string, out: string)
    requires WellFormed(m)
    ensures Accepts(q, Canonical(m.target, m.dest) + out) ==> Accepts(q, LinkText(m) + rest)
  {
    var m' := LinkMatch("", m.target, "", m.dest);
    CanonicalIsLinkText(m.target, m.dest);
    RunLinkText(q, m);
    RunLinkText(q, m');
    AcceptsAppend(q, LinkText(m), rest);
    AcceptsAppend(q, LinkText(m'), out);
  }

  /** A character copied in front of both texts keeps the implication between them. */
  lemma AcceptsCopied(q: Phase, c: char, t: string, out: string)
    requires q != Done && Step(q, c).Some? ==> Accepts(Step(q, c).value, out) ==> Accepts(Step(q, c).value, t)
    ensures Accepts(q, [c] + out) ==> Accepts(q, [c] + t)
  {
    assert ([c] + out)[0] == c && ([c] + out)[1..] == out;
    assert ([c] + t)[0] == c && ([c] + t)[1..] == t;
  }

  /** Replacing occurrences never creates an occurrence that was not completed in the
      original: whatever the automaton accepts in the output, from any phase, it accepts
      in the input. */
  lemma {:induction false} AcceptsFix(q: Phase, s: string)
    ensures Accepts(q, FixMarkdownLinks(s)) ==> Accepts(q, s)
    decreases |s|
  {
    if |s| > 0 {
      match MatchLink(s)
      case Some(m) =>
        MatchLinkPrefix(s);
        MatchLinkWellFormed(s);
        FixReplacesOne(s);
        AcceptsReplaced(q, m, s[Size(m)..], FixMarkdownLinks(s[Size(m)..]));
      case None =>
        FixCopiesOne(s);
        if q != Done && Step(q, s[0]).Some? {
          AcceptsFix(Step(q, s[0]).value, s[1..]);
        }
        AcceptsCopied(q, s[0], s[1..], FixMarkdownLinks(s[1..]));
        assert [s[0]] + s[1..] == s;
    }
  }

  /** A compact link is kept as it is, and the replace goes on after it. */
  lemma FixCompact(target: string, dest: string, x: string)
    requires ParenFree(target) && ParenFree(dest)
    ensures FixMarkdownLinks(Canonical(target, dest) + x)
            == Canonical(target, dest) + FixMarkdownLinks(x)
  {
    var m := LinkMatch("", target, "", dest);
    CanonicalIsLinkText(target, dest);
    MatchLinkText(m, x);
    FixReplacesOne(LinkText(m) + x);
    assert (LinkText(m) + x)[Size(m)..] == x;
  }

  lemma Uncons(x: string, c: char, y: string)
    requires x == [c] + y
    ensures |x| > 0 && x[0] == c && x[1..] == y
  {
  }

  /** Fixing the links of a text that has been fixed changes nothing. */
  lemma {:induction false} FixIdempotent(s: string)
    ensures FixMarkdownLinks(FixMarkdownLinks(s)) == FixMarkdownLinks(s)
    decreases |s|
  {
    if |s| > 0 {
      match MatchLink(s)
      case Some(m) =>
        FixReplacesOne(s);
        MatchLinkWellFormed(s);
        FixCompact(m.target, m.dest, FixMarkdownLinks(s[Size(m)..]));
        FixIdempotent(s[Size(m)..]);
      case None =>
        var out := FixMarkdownLinks(s);
        FixCopiesOne(s);
        Uncons(out, s[0], FixMarkdownLinks(s[1..]));
        AcceptsFix(Open, s);
        MatchLinkAccepts(s);
        MatchLinkAccepts(out);
        FixCopiesOne(out);
        FixIdempotent(s[1..]);
    }
  }

  /** No occurrence starts at any of the first `i` positions of `s`. */
  ghost predicate NoLinkUpTo(s: string, i: nat)
    decreases i
  {
    i == 0 || (|s| > 0 && MatchLink(s).None? && NoLinkUpTo(s[1..], i - 1))
  }

  lemma {:induction false} NoLinkUpToAll(s: string, i: nat)
    requires i <= |s|
    requires forall j :: 0 <= j < i ==> MatchLink(s[j..]).None?
    ensures NoLinkUpTo(s, i)
    decreases i
  {
    if i > 0 {
      assert MatchLink(s[0..]).None? && s[0..] == s;
      forall j | 0 <= j < i - 1
        ensures MatchLink(s[1..][j..]).None?
      {
        assert s[1..][j..] == s[j + 1..];
      }
      NoLinkUpToAll(s[1..], i - 1);
    }
  }

  /** Up to the first occurrence, the text is copied as it is. */
  lemma {:induction false} FixCopies(s: string, i: nat)
    requires i <= |s| && NoLinkUpTo(s, i)
    ensures FixMarkdownLinks(s) == s[..i] + FixMarkdownLinks(s[i..])
    decreases i
  {
    if i == 0 {
      assert s[..0] == [] && s[0..] == s;
    } else {
      FixCopiesOne(s);
      FixCopies(s[1..], i - 1);
      SplitFront(s, i);
      Regroup(FixMarkdownLinks(s), s[0], FixMarkdownLinks(s[1..]), s[1..][..i - 1], s[..i],
              FixMarkdownLinks(s[i..]));
    }
  }

  lemma SplitFront(s: string, i: nat)
    requires 0 < i <= |s|
    ensures s[..i] == [s[0]] + s[1..][..i - 1] && s[1..][i - 1..] == s[i..]
  {
  }

  lemma Regroup(x: string, c: char, f1: string, a: string, b: string, f2: string)
    requires x == [c] + f1 && f1 == a + f2 && b == [c] + a
    ensures x == b + f2
  {
    assert [c] + (a + f2) == ([c] + a) + f2;
  }

  /** A text in which the pattern occurs nowhere is returned as it is. */
  lemma FixNoMatch(s: string)
    requires forall i :: 0 <= i < |s| ==> MatchLink(s[i..]).None?
    ensures FixMarkdownLinks(s) == s
  {
    NoLinkUpToAll(s, |s|);
    FixCopies(s, |s|);
    assert s[..|s|] == s;
    assert s[|s|..] == "";
  }

  /** The text before the first occurrence is copied, the occurrence becomes its compact
      form, and the replace goes on after it. */
  lemma FixFirst(s: string, i: nat)
    requires i < |s| && MatchLink(s[i..]).Some?
    requires forall j :: 0 <= j < i ==> MatchLink(s[j..]).None?
    ensures FixMarkdownLinks(s) == s[..i] + FixMarkdownLinks(s[i..])
    ensures var m := MatchLink(s[i..]).value;
            FixMarkdownLinks(s[i..]) == Canonical(m.target, m.dest) + FixMarkdownLinks(s[i + Size(m)..])
  {
    NoLinkUpToAll(s, i);
    FixCopies(s, i);
    FixReplacesAt(s, i);
  }

  lemma FixReplacesAt(s: string, i: nat)
    requires i < |s| && MatchLink(s[i..]).Some?
    ensures var m := MatchLink(s[i..]).value;
            FixMarkdownLinks(s[i..])
            == Canonical(m.target, m.dest) + FixMarkdownLinks(s[i + Size(m)..])
  {
    var m := MatchLink(s[i..]).value;
    FixReplacesOne(s[i..]);
    assert s[i..][Size(m)..] == s[i + Size(m)..];
  }

  /** One image link broken across lines becomes the compact form. */
  lemma FixBrokenLink(m: LinkMatch)
    requires WellFormed(m)
    ensures FixMarkdownLinks(LinkText(m)) == Canonical(m.target, m.dest)
  {
    MatchLinkText(m, "");
    assert LinkText(m) + "" == LinkText(m);
    assert LinkText(m)[Size(m)..] == "";
  }
}
