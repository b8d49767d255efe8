/** Heading demotion of the aggregator. Six global multiline replacements run one after another,
    deepest level first: `^###### ` becomes `####### `, then `^##### ` becomes `###### `, and so
    on down to `^# ` becoming `## `. Taken together they add one `#` to every line that opens
    with an ATX heading marker of level 1 to 6, and leave every other line alone. */
module Headings {
  import opened Wrappers
  import opened Text

  /** `#` repeated n times. */
  function Hashes(n: nat): (r: string)
    ensures |r| == n
  {
    seq(n, _ => '#')
  }

  /** The heading marker of level k: k hashes and a space. */
  function Marker(k: nat): (r: string)
    ensures |r| == k + 1 && r[k] == ' '
    ensures forall i :: 0 <= i < k ==> r[i] == '#'
  {
    Hashes(k) + " "
  }

  /** pat occurs in s at index i. */
  predicate MatchesAt(s: string, i: nat, pat: string) {
    i + |pat| <= |s| && forall k :: 0 <= k < |pat| ==> s[i + k] == pat[k]
  }

  predicate NoTerminator(s: string) {
    forall i :: 0 <= i < |s| ==> !IsLineTerminator(s[i])
  }

  /** `^` of a multiline regular expression matches at i: at the start, or after a line terminator. */
  predicate LineStart(s: string, i: nat)
    requires i <= |s|
  {
    i == 0 || IsLineTerminator(s[i - 1])
  }

  /** `s.replace(/^pat/gm, rep)` from index i on: where a line starts with `pat` the match is
      replaced and the search resumes after it; everything else is copied. */
  function ReplaceFrom(s: string, pat: string, rep: string, i: nat): string
    requires i <= |s| && pat != []
    decreases |s| - i
  {
    if i == |s| then []
    else if LineStart(s, i) && MatchesAt(s, i, pat) then rep + ReplaceFrom(s, pat, rep, i + |pat|)
    else [s[i]] + ReplaceFrom(s, pat, rep, i + 1)
  }

  /** One of the six replacements: level k becomes level k + 1. */
  function Pass(k: nat, s: string): string {
    ReplaceFrom(s, Marker(k), Marker(k + 1), 0)
  }

  /** The replacements for the given levels, applied in order. */
  function Chain(levels: seq<nat>, s: string): string {
    if levels == [] then s else Chain(levels[1..], Pass(levels[0], s))
  }

  /** The chain applied to every section's content, deepest level first. */
  function Demote(s: string): string {
    Chain([6, 5, 4, 3, 2, 1], s)
  }

  // ---------------------------------------------------------------------------------------------
  // Lines

  /** The first line terminator at or after i. */
  function FirstTerminator(s: string, i: nat): (r: Option<nat>)
    requires i <= |s|
    ensures r.Some? ==> i <= r.value < |s| && IsLineTerminator(s[r.value])
    ensures r.Some? ==> forall p :: i <= p < r.value ==> !IsLineTerminator(s[p])
    ensures r.None? ==> forall p :: i <= p < |s| ==> !IsLineTerminator(s[p])
    decreases |s| - i
  {
    if i == |s| then None
    else if IsLineTerminator(s[i]) then Some(i)
    else FirstTerminator(s, i + 1)
  }

  /** The lines of s[i..], each with its terminator; the last one has none and may be empty. */
  function LinesFrom(s: string, i: nat): (ls: seq<string>)
    requires i <= |s|
    ensures |ls| >= 1
    decreases |s| - i
  {
    match FirstTerminator(s, i)
    case None => [s[i..]]
    case Some(t) => [s[i..t + 1]] + LinesFrom(s, t + 1)
  }

  function Lines(s: string): (ls: seq<string>)
    ensures |ls| >= 1
  {
    LinesFrom(s, 0)
  }

  function Concat(ls: seq<string>): string {
    if ls == [] then [] else ls[0] + Concat(ls[1..])
  }

  /** A line other than the last: one terminator, at its end. */
  predicate ClosedLine(l: string) {
    |l| > 0 && IsLineTerminator(l[|l| - 1]) && NoTerminator(l[..|l| - 1])
  }

  predicate WellFormedLines(ls: seq<string>) {
    && |ls| >= 1
    && NoTerminator(ls[|ls| - 1])
    && forall i :: 0 <= i < |ls| - 1 ==> ClosedLine(ls[i])
  }

  /** Cutting a text into lines loses nothing, and gives well-formed lines. */
  lemma LinesSound(s: string)
    ensures Concat(Lines(s)) == s
    ensures WellFormedLines(Lines(s))
  {
    LinesFromSound(s, 0);
    assert s[0..] == s;
  }

  lemma {:induction false} LinesFromSound(s: string, i: nat)
    requires i <= |s|
    ensures Concat(LinesFrom(s, i)) == s[i..]
    ensures WellFormedLines(LinesFrom(s, i))
    decreases |s| - i
  {
    match FirstTerminator(s, i)
    case None =>
      ConcatCons(s[i..], []);
    case Some(t) =>
      LinesFromSound(s, t + 1);
      LinesFromSome(s, i, t);
  }

  /** The step of LinesFromSound past one closed line. */
  lemma LinesFromSome(s: string, i: nat, t: nat)
    requires i <= t < |s| && FirstTerminator(s, i) == Some(t)
    requires Concat(LinesFrom(s, t + 1)) == s[t + 1..] && WellFormedLines(LinesFrom(s, t + 1))
    ensures Concat(LinesFrom(s, i)) == s[i..]
    ensures WellFormedLines(LinesFrom(s, i))
  {
    var head := s[i..t + 1];
    var tail := LinesFrom(s, t + 1);
    assert LinesFrom(s, i) == [head] + tail;
    ConcatCons(head, tail);
    SliceSplit(s, i, t + 1);
    ClosedHead(s, i, t);
    WellFormedCons(head, tail);
  }

  lemma ConcatCons(l: string, rest: seq<string>)
    ensures Concat([l] + rest) == l + Concat(rest)
  {
    assert ([l] + rest)[1..] == rest;
  }

  lemma ConsEqual<T>(x: seq<T>, tail: seq<T>, ys: seq<T>)
    requires |ys| > 0 && x == [ys[0]] + tail && tail == ys[1..]
    ensures x == ys
  {
  }

  lemma SliceSplit<T>(s: seq<T>, i: nat, j: nat)
    requires i <= j <= |s|
    ensures s[i..] == s[i..j] + s[j..]
  {
  }

  /** The line up to and including the first terminator is closed. */
  lemma ClosedHead(s: string, i: nat, t: nat)
    requires i <= t < |s| && FirstTerminator(s, i) == Some(t)
    ensures ClosedLine(s[i..t + 1])
  {
    var pre := s[i..t + 1][..t - i];
    forall p | 0 <= p < |pre| ensures !IsLineTerminator(pre[p]) {
      assert pre[p] == s[i + p];
    }
  }

  lemma WellFormedCons(head: string, tail: seq<string>)
    requires ClosedLine(head) && WellFormedLines(tail)
    ensures WellFormedLines([head] + tail)
  {
    var ls := [head] + tail;
    forall j | 1 <= j < |ls| - 1 ensures ClosedLine(ls[j]) {
      assert ls[j] == tail[j - 1];
    }
  }

  /** Well-formed lines are cut back exactly where they were joined. */
  lemma LinesOfConcat(ls: seq<string>)
    requires WellFormedLines(ls)
    ensures Lines(Concat(ls)) == ls
  {
    LinesFromConcat(Concat(ls), 0, ls);
  }

  lemma {:induction false} LinesFromConcat(s: string, i: nat, ls: seq<string>)
    requires i <= |s| && WellFormedLines(ls) && s[i..] == Concat(ls)
    ensures LinesFrom(s, i) == ls
    decreases |ls|
  {
    if |ls| == 1 {
      LastLineOfConcat(s, i, ls);
    } else {
      var t, rest := i + |ls[0]|, ls[1..];
      ClosedLineOfConcat(s, i, ls);
      LinesFromConcat(s, t, rest);
      ConsEqual(LinesFrom(s, i), LinesFrom(s, t), ls);
    }
  }

  lemma LinesFromStep(s: string, i: nat, t: nat)
    requires i <= t < |s| && FirstTerminator(s, i) == Some(t)
    ensures LinesFrom(s, i) == [s[i..t + 1]] + LinesFrom(s, t + 1)
  {
  }

  /** The first of several well-formed lines is cut off at its terminator. */
  lemma ClosedLineOfConcat(s: string, i: nat, ls: seq<string>)
    requires |ls| > 1 && i <= |s| && WellFormedLines(ls) && s[i..] == Concat(ls)
    ensures i + |ls[0]| <= |s| && s[i..i + |ls[0]|] == ls[0]
    ensures FirstTerminator(s, i) == Some(i + |ls[0]| - 1)
    ensures s[i + |ls[0]|..] == Concat(ls[1..]) && WellFormedLines(ls[1..])
    ensures LinesFrom(s, i) == [ls[0]] + LinesFrom(s, i + |ls[0]|)
  {
    var l := ls[0];
    HeadOfConcat(s, i, ls);
    TerminatorOfClosed(s, i, l);
    var t := i + |l| - 1;
    LinesFromStep(s, i, t);
  }

  lemma HeadOfConcat(s: string, i: nat, ls: seq<string>)
    requires |ls| > 1 && i <= |s| && WellFormedLines(ls) && s[i..] == Concat(ls)
    ensures i + |ls[0]| <= |s| && s[i..i + |ls[0]|] == ls[0] && ClosedLine(ls[0])
    ensures s[i + |ls[0]|..] == Concat(ls[1..]) && WellFormedLines(ls[1..])
  {
    var l, rest := ls[0], ls[1..];
    ConcatCons(l, rest);
    assert [l] + rest == ls;
    WellFormedTail(ls);
    PrefixSplit(s, i, l, Concat(rest));
  }



  /** A terminator-free remainder is the last line. */
  lemma LastLineOfConcat(s: string, i: nat, ls: seq<string>)
    requires |ls| == 1 && i <= |s| && WellFormedLines(ls) && s[i..] == Concat(ls)
    ensures LinesFrom(s, i) == ls
  {
    var l := ls[0];
    ConcatCons(l, []);
    assert [l] + [] == ls;
    assert Concat([]) == [];
    assert s[i..] == l;
    forall p | i <= p < |s| ensures !IsLineTerminator(s[p]) {
      assert s[p] == l[p - i];
    }
    NoTerminatorFrom(s, i);
    assert LinesFrom(s, i) == [s[i..]];
  }


  lemma {:induction false} NoTerminatorFrom(s: string, i: nat)
    requires i <= |s| && forall p :: i <= p < |s| ==> !IsLineTerminator(s[p])
    ensures FirstTerminator(s, i).None?
    decreases |s| - i
  {
    if i < |s| {
      NoTerminatorFrom(s, i + 1);
    }
  }

  lemma WellFormedTail(ls: seq<string>)
    requires |ls| > 1 && WellFormedLines(ls)
    ensures ClosedLine(ls[0]) && WellFormedLines(ls[1..])
  {
    var rest := ls[1..];
    forall j | 0 <= j < |rest| - 1 ensures ClosedLine(rest[j]) {
      assert rest[j] == ls[j + 1];
    }
  }

  lemma PrefixSplit(s: string, i: nat, l: string, rest: string)
    requires i <= |s| && s[i..] == l + rest
    ensures i + |l| <= |s| && s[i..i + |l|] == l && s[i + |l|..] == rest
  {
    assert s[i..][..|l|] == l;
    assert s[i..][|l|..] == rest;
  }

  /** A closed line found in the text ends at the first terminator. */
  lemma TerminatorOfClosed(s: string, i: nat, l: string)
    requires i + |l| <= |s| && s[i..i + |l|] == l && ClosedLine(l)
    ensures FirstTerminator(s, i) == Some(i + |l| - 1)
  {
    var t := i + |l| - 1;
    forall p | i <= p < t ensures !IsLineTerminator(s[p]) {
      assert s[p] == l[..|l| - 1][p - i];
    }
    assert s[t] == l[|l| - 1];
    FirstTerminatorAt(s, i, t);
  }

  lemma {:induction false} FirstTerminatorAt(s: string, i: nat, t: nat)
    requires i <= t < |s| && IsLineTerminator(s[t])
    requires forall p :: i <= p < t ==> !IsLineTerminator(s[p])
    ensures FirstTerminator(s, i) == Some(t)
    decreases t - i
  {
    if i < t {
      FirstTerminatorAt(s, i + 1, t);
    }
  }

  // ---------------------------------------------------------------------------------------------
  // One replacement, line by line

  /** What a replacement does to one line. */
  function Rewrite(pat: string, rep: string, l: string): string {
    if MatchesAt(l, 0, pat) then rep + l[|pat|..] else l
  }

  function RewriteLines(pat: string, rep: string, ls: seq<string>): (r: seq<string>)
    ensures |r| == |ls|
    ensures forall i :: 0 <= i < |ls| ==> r[i] == Rewrite(pat, rep, ls[i])
  {
    if ls == [] then [] else [Rewrite(pat, rep, ls[0])] + RewriteLines(pat, rep, ls[1..])
  }

  /** Inside a line the scan only copies. */
  lemma {:induction false} ReplaceCopies(s: string, pat: string, rep: string, a: nat, e: nat)
    requires pat != [] && a <= e <= |s|
    requires forall p :: a <= p < e ==> !LineStart(s, p)
    ensures ReplaceFrom(s, pat, rep, a) == s[a..e] + ReplaceFrom(s, pat, rep, e)
    decreases e - a
  {
    if a < e {
      ReplaceCopies(s, pat, rep, a + 1, e);
      assert !LineStart(s, a);
      assert ReplaceFrom(s, pat, rep, a) == [s[a]] + ReplaceFrom(s, pat, rep, a + 1);
      assert s[a..e] == [s[a]] + s[a + 1..e];
    } else {
      assert s[a..e] == [];
    }
  }

  /** The scan at a line start rewrites that line and carries on at the next one. */
  lemma ReplaceLine(s: string, pat: string, rep: string, i: nat, e: nat)
    requires pat != [] && NoTerminator(pat) && i <= e <= |s| && LineStart(s, i)
    requires forall p :: i <= p < e - 1 ==> !IsLineTerminator(s[p])
    requires e < |s| ==> i < e && IsLineTerminator(s[e - 1])
    ensures ReplaceFrom(s, pat, rep, i) == Rewrite(pat, rep, s[i..e]) + ReplaceFrom(s, pat, rep, e)
  {
    if i == e {
      assert s[i..e] == [];
    } else if MatchesAt(s, i, pat) {
      ReplaceLineMatch(s, pat, rep, i, e);
    } else {
      ReplaceLineCopy(s, pat, rep, i, e);
    }
  }

  lemma ReplaceLineCopy(s: string, pat: string, rep: string, i: nat, e: nat)
    requires pat != [] && i < e <= |s|
    requires forall p :: i <= p < e - 1 ==> !IsLineTerminator(s[p])
    requires !MatchesAt(s, i, pat)
    ensures ReplaceFrom(s, pat, rep, i) == Rewrite(pat, rep, s[i..e]) + ReplaceFrom(s, pat, rep, e)
  {
    var line := s[i..e];
    NoLineStartInside(s, i, i + 1, e);
    ReplaceCopies(s, pat, rep, i + 1, e);
    ReplaceFromCopy(s, pat, rep, i);
    RewriteOfNoMatch(s, pat, rep, i, e);
    SliceCons(s, i, e);
    Regroup(ReplaceFrom(s, pat, rep, i), [s[i]], ReplaceFrom(s, pat, rep, i + 1), s[i + 1..e], ReplaceFrom(s, pat, rep, e));
  }

  lemma Regroup<T>(x: seq<T>, a: seq<T>, y: seq<T>, b: seq<T>, c: seq<T>)
    requires x == a + y && y == b + c
    ensures x == (a + b) + c
  {
  }

  lemma RewriteOfNoMatch(s: string, pat: string, rep: string, i: nat, e: nat)
    requires i <= e <= |s| && !MatchesAt(s, i, pat)
    ensures Rewrite(pat, rep, s[i..e]) == s[i..e]
  {
    MatchOfLineBack(s, pat, i, e);
  }

  lemma RewriteOfMatch(s: string, pat: string, rep: string, i: nat, e: nat)
    requires i + |pat| <= e <= |s| && MatchesAt(s, i, pat)
    ensures Rewrite(pat, rep, s[i..e]) == rep + s[i + |pat|..e]
  {
    MatchOfLine(s, pat, i, e);
  }

  /** Where a line starts with the pattern, the scan emits the replacement and skips the match. */
  lemma ReplaceFromMatch(s: string, pat: string, rep: string, i: nat)
    requires pat != [] && i <= |s| && LineStart(s, i) && MatchesAt(s, i, pat)
    ensures ReplaceFrom(s, pat, rep, i) == rep + ReplaceFrom(s, pat, rep, i + |pat|)
  {
  }

  /** Past the first character of a line and up to its end, no line starts. */
  lemma NoLineStartInside(s: string, i: nat, a: nat, e: nat)
    requires i < a <= e <= |s|
    requires forall p :: i <= p < e - 1 ==> !IsLineTerminator(s[p])
    ensures forall p :: a <= p < e ==> !LineStart(s, p)
  {
  }

  /** Where the pattern does not match, the scan copies one character. */
  lemma ReplaceFromCopy(s: string, pat: string, rep: string, i: nat)
    requires pat != [] && i < |s| && !MatchesAt(s, i, pat)
    ensures ReplaceFrom(s, pat, rep, i) == [s[i]] + ReplaceFrom(s, pat, rep, i + 1)
  {
  }

  lemma SliceCons<T>(s: seq<T>, i: nat, e: nat)
    requires i < e <= |s|
    ensures s[i..e] == [s[i]] + s[i + 1..e]
  {
  }

  lemma ReplaceLineMatch(s: string, pat: string, rep: string, i: nat, e: nat)
    requires pat != [] && NoTerminator(pat) && i < e <= |s| && LineStart(s, i)
    requires forall p :: i <= p < e - 1 ==> !IsLineTerminator(s[p])
    requires e < |s| ==> IsLineTerminator(s[e - 1])
    requires MatchesAt(s, i, pat)
    ensures ReplaceFrom(s, pat, rep, i) == Rewrite(pat, rep, s[i..e]) + ReplaceFrom(s, pat, rep, e)
  {
    MatchWithinLine(s, pat, i, e);
    var m := i + |pat|;
    NoLineStartInside(s, i, m, e);
    ReplaceFromMatch(s, pat, rep, i);
    ReplaceCopies(s, pat, rep, m, e);
    RewriteOfMatch(s, pat, rep, i, e);
    Regroup(ReplaceFrom(s, pat, rep, i), rep, ReplaceFrom(s, pat, rep, m), s[m..e], ReplaceFrom(s, pat, rep, e));
  }

  /** A terminator-free pattern matched at a line start ends inside that line. */
  lemma MatchWithinLine(s: string, pat: string, i: nat, e: nat)
    requires NoTerminator(pat) && i < e <= |s|
    requires e < |s| ==> IsLineTerminator(s[e - 1])
    requires MatchesAt(s, i, pat)
    ensures i + |pat| <= e
  {
    forall p | i <= p < i + |pat| ensures !IsLineTerminator(s[p]) {
      assert s[p] == pat[p - i];
    }
  }

  /** A match at the start of a line cut out of the text is a match in the text. */
  lemma MatchOfLineBack(s: string, pat: string, i: nat, e: nat)
    requires i <= e <= |s|
    ensures MatchesAt(s[i..e], 0, pat) ==> MatchesAt(s, i, pat)
  {
    var line := s[i..e];
    forall k | 0 <= k < |pat| && k < |line| ensures line[k] == s[i + k] {
    }
  }

  /** A match in the text is a match at the start of the line cut out of it. */
  lemma MatchOfLine(s: string, pat: string, i: nat, e: nat)
    requires i + |pat| <= e <= |s| && MatchesAt(s, i, pat)
    ensures MatchesAt(s[i..e], 0, pat)
    ensures s[i..e][|pat|..] == s[i + |pat|..e]
  {
    var line := s[i..e];
    forall k | 0 <= k < |pat| ensures line[k] == pat[k] {
      assert line[k] == s[i + k];
    }
  }


  /** A replacement at line starts rewrites the text line by line. */
  lemma ReplaceByLines(s: string, pat: string, rep: string)
    requires pat != [] && NoTerminator(pat)
    ensures ReplaceFrom(s, pat, rep, 0) == Concat(RewriteLines(pat, rep, Lines(s)))
  {
    ReplaceFromLines(s, pat, rep, 0);
  }

  lemma {:induction false} ReplaceFromLines(s: string, pat: string, rep: string, i: nat)
    requires pat != [] && NoTerminator(pat) && i <= |s| && LineStart(s, i)
    ensures ReplaceFrom(s, pat, rep, i) == Concat(RewriteLines(pat, rep, LinesFrom(s, i)))
    decreases |s| - i
  {
    match FirstTerminator(s, i)
    case None =>
      ReplaceLastLine(s, pat, rep, i);
    case Some(t) =>
      ReplaceFromLines(s, pat, rep, t + 1);
      ReplaceNextLine(s, pat, rep, i, t);
  }

  lemma ReplaceLastLine(s: string, pat: string, rep: string, i: nat)
    requires pat != [] && NoTerminator(pat) && i <= |s| && LineStart(s, i)
    requires FirstTerminator(s, i).None?
    ensures ReplaceFrom(s, pat, rep, i) == Concat(RewriteLines(pat, rep, LinesFrom(s, i)))
  {
    var line := s[i..];
    ReplaceLine(s, pat, rep, i, |s|);
    assert s[i..|s|] == line;
    assert LinesFrom(s, i) == [line] + [];
    RewriteLinesCons(pat, rep, line, []);
    ConcatCons(Rewrite(pat, rep, line), []);
    assert RewriteLines(pat, rep, []) == [] && Concat([]) == [] && ReplaceFrom(s, pat, rep, |s|) == [];
  }

  lemma ReplaceNextLine(s: string, pat: string, rep: string, i: nat, t: nat)
    requires pat != [] && NoTerminator(pat) && i <= |s| && LineStart(s, i)
    requires FirstTerminator(s, i) == Some(t)
    requires ReplaceFrom(s, pat, rep, t + 1) == Concat(RewriteLines(pat, rep, LinesFrom(s, t + 1)))
    ensures ReplaceFrom(s, pat, rep, i) == Concat(RewriteLines(pat, rep, LinesFrom(s, i)))
  {
    ReplaceLine(s, pat, rep, i, t + 1);
    var head, tail := s[i..t + 1], LinesFrom(s, t + 1);
    assert LinesFrom(s, i) == [head] + tail;
    RewriteLinesCons(pat, rep, head, tail);
    ConcatCons(Rewrite(pat, rep, head), RewriteLines(pat, rep, tail));
  }

  lemma RewriteLinesCons(pat: string, rep: string, l: string, rest: seq<string>)
    ensures RewriteLines(pat, rep, [l] + rest) == [Rewrite(pat, rep, l)] + RewriteLines(pat, rep, rest)
  {
    assert ([l] + rest)[1..] == rest;
  }

  // ---------------------------------------------------------------------------------------------
  // Heading levels

  /** Number of `#` characters that open l. */
  function LeadingHashes(l: string): (n: nat)
    ensures n <= |l|
    ensures forall i :: 0 <= i < n ==> l[i] == '#'
    ensures n == |l| || l[n] != '#'
  {
    if l == [] || l[0] != '#' then 0
    else
      var n := LeadingHashes(l[1..]);
      assert forall i :: 1 <= i <= n ==> l[i] == l[1..][i - 1];
      1 + n
  }

  /** The ATX heading level of a line: its opening run of `#` when a space follows it, else 0. */
  function Level(l: string): nat {
    var n := LeadingHashes(l);
    if n < |l| && l[n] == ' ' then n else 0
  }

  /** The line as the whole chain leaves it: levels 1 to 6 gain one `#`, other lines stay. */
  function DemoteLine(l: string): string {
    if 1 <= Level(l) <= 6 then "#" + l else l
  }

  function DemoteLines(ls: seq<string>): (r: seq<string>)
    ensures |r| == |ls|
    ensures forall i :: 0 <= i < |ls| ==> r[i] == DemoteLine(ls[i])
  {
    if ls == [] then [] else [DemoteLine(ls[0])] + DemoteLines(ls[1..])
  }

  lemma LeadingHashesOf(l: string, n: nat)
    requires n <= |l| && (forall i :: 0 <= i < n ==> l[i] == '#') && (n == |l| || l[n] != '#')
    ensures LeadingHashes(l) == n
  {
  }

  /** Replacement k touches exactly the lines of level k, adding one `#` to them. */
  lemma RewriteByLevel(k: nat, l: string)
    requires 1 <= k
    ensures Rewrite(Marker(k), Marker(k + 1), l) == if Level(l) == k then "#" + l else l
  {
    var pat := Marker(k);
    if Level(l) == k {
      LevelMatches(k, l);
    }
    if MatchesAt(l, 0, pat) {
      assert forall i :: 0 <= i < k ==> l[i] == pat[i];
      assert l[k] == pat[k];
      LeadingHashesOf(l, k);
      assert Marker(k + 1) == "#" + pat;
      assert l == pat + l[k + 1..] by {
        assert l[..k + 1] == pat;
      }
    }
  }

  /** A line of level k opens with the marker of level k. */
  lemma LevelMatches(k: nat, l: string)
    requires 1 <= k && Level(l) == k
    ensures MatchesAt(l, 0, Marker(k))
  {
    var pat := Marker(k);
    forall i | 0 <= i < k + 1 ensures l[i] == pat[i] {
    }
  }

  /** Prepending `#` to a heading raises its level by one. */
  lemma LevelPrepend(l: string)
    requires Level(l) >= 1
    ensures Level("#" + l) == Level(l) + 1
  {
    var n := LeadingHashes(l);
    var m := "#" + l;
    assert forall i :: 1 <= i <= |l| ==> m[i] == l[i - 1];
    LeadingHashesOf(m, n + 1);
  }

  /** The replacements for the given levels, applied in order to one line. */
  function ChainLine(levels: seq<nat>, l: string): string {
    if levels == [] then l else ChainLine(levels[1..], Rewrite(Marker(levels[0]), Marker(levels[0] + 1), l))
  }

  /** The levels k down to 1. */
  function Down(k: nat): (r: seq<nat>)
    ensures |r| == k
    ensures forall i :: 0 <= i < k ==> r[i] == k - i
  {
    if k == 0 then [] else [k] + Down(k - 1)
  }

  /** Replacements for k down to 1, applied to one line, add one `#` to a heading of level 1 to k
      and leave every other line alone: a line is never touched twice. */
  lemma {:induction false} ChainDown(k: nat, l: string)
    ensures ChainLine(Down(k), l) == if 1 <= Level(l) <= k then "#" + l else l
  {
    if k > 0 {
      var next := Rewrite(Marker(k), Marker(k + 1), l);
      ChainDown(k - 1, next);
      ChainDownStep(k, l);
    }
  }

  /** The step of ChainDown: replacement k, then the rest of the chain. */
  lemma ChainDownStep(k: nat, l: string)
    requires k > 0
    requires var next := Rewrite(Marker(k), Marker(k + 1), l);
      ChainLine(Down(k - 1), next) == if 1 <= Level(next) <= k - 1 then "#" + next else next
    ensures ChainLine(Down(k), l) == if 1 <= Level(l) <= k then "#" + l else l
  {
    assert Down(k)[1..] == Down(k - 1);
    assert ChainLine(Down(k), l) == ChainLine(Down(k - 1), Rewrite(Marker(k), Marker(k + 1), l));
    RewriteByLevel(k, l);
    if Level(l) == k {
      LevelPrepend(l);
    }
  }

  // ---------------------------------------------------------------------------------------------
  // The chain, line by line

  lemma MarkerNoTerminator(k: nat)
    ensures NoTerminator(Marker(k))
  {
  }

  /** A rewrite adds `#` at the front of a line or leaves it, so line structure survives it. */
  lemma RewriteKeepsLines(k: nat, ls: seq<string>)
    requires 1 <= k && WellFormedLines(ls)
    ensures WellFormedLines(RewriteLines(Marker(k), Marker(k + 1), ls))
  {
    var r := RewriteLines(Marker(k), Marker(k + 1), ls);
    forall i | 0 <= i < |ls| ensures r[i] == ls[i] || r[i] == "#" + ls[i] {
      RewriteByLevel(k, ls[i]);
    }
    forall i | 0 <= i < |ls| - 1 ensures ClosedLine(r[i]) {
      ClosedPrepend(ls[i]);
    }
    NoTerminatorPrepend(ls[|ls| - 1]);
  }

  lemma ClosedPrepend(l: string)
    requires ClosedLine(l)
    ensures ClosedLine("#" + l)
  {
    assert ("#" + l)[..|l|] == "#" + l[..|l| - 1];
    NoTerminatorPrepend(l[..|l| - 1]);
  }

  lemma NoTerminatorPrepend(l: string)
    requires NoTerminator(l)
    ensures NoTerminator("#" + l)
  {
    var m := "#" + l;
    forall j | 1 <= j < |m| ensures m[j] == l[j - 1] {
    }
  }

  /** One replacement applied to well-formed lines, joined. */
  lemma PassOnLines(k: nat, ls: seq<string>)
    requires 1 <= k && WellFormedLines(ls)
    ensures Pass(k, Concat(ls)) == Concat(RewriteLines(Marker(k), Marker(k + 1), ls))
    ensures WellFormedLines(RewriteLines(Marker(k), Marker(k + 1), ls))
  {
    MarkerNoTerminator(k);
    ReplaceByLines(Concat(ls), Marker(k), Marker(k + 1));
    LinesOfConcat(ls);
    RewriteKeepsLines(k, ls);
  }

  /** The chain applied to each line. */
  function ChainLines(levels: seq<nat>, ls: seq<string>): (r: seq<string>)
    ensures |r| == |ls|
  {
    seq(|ls|, i requires 0 <= i < |ls| => ChainLine(levels, ls[i]))
  }


  /** A chain of replacements rewrites the text line by line. */
  lemma {:induction false} ChainOnLines(levels: seq<nat>, ls: seq<string>)
    requires WellFormedLines(ls) && forall i :: 0 <= i < |levels| ==> levels[i] >= 1
    ensures Chain(levels, Concat(ls)) == Concat(ChainLines(levels, ls))
    ensures WellFormedLines(ChainLines(levels, ls))
    decreases |levels|
  {
    if levels != [] {
      var k, rest := levels[0], levels[1..];
      PassOnLines(k, ls);
      var next := RewriteLines(Marker(k), Marker(k + 1), ls);
      ChainStep(levels, ls);
      ChainOnLines(rest, next);
    } else {
      ChainLinesNone(ls);
    }
  }

  lemma ChainLinesNone(ls: seq<string>)
    ensures ChainLines([], ls) == ls
  {
  }

  /** One step of the chain, both on the text and on its lines. */
  lemma ChainStep(levels: seq<nat>, ls: seq<string>)
    requires levels != [] && forall i :: 0 <= i < |levels| ==> levels[i] >= 1
    ensures forall i :: 0 <= i < |levels| - 1 ==> levels[1..][i] >= 1
    ensures Chain(levels, Concat(ls)) == Chain(levels[1..], Pass(levels[0], Concat(ls)))
    ensures ChainLines(levels, ls) == ChainLines(levels[1..], RewriteLines(Marker(levels[0]), Marker(levels[0] + 1), ls))
  {
    forall i | 0 <= i < |levels| - 1 ensures levels[1..][i] >= 1 {
      assert levels[1..][i] == levels[i + 1];
    }
    var next := RewriteLines(Marker(levels[0]), Marker(levels[0] + 1), ls);
    forall i | 0 <= i < |ls| ensures ChainLines(levels, ls)[i] == ChainLines(levels[1..], next)[i] {
    }
  }

  /** The demoted text is the input line by line, each line demoted; in particular it has as many
      lines as the input. */
  lemma DemoteByLines(s: string)
    ensures Demote(s) == Concat(DemoteLines(Lines(s)))
    ensures Lines(Demote(s)) == DemoteLines(Lines(s))
    ensures |Lines(Demote(s))| == |Lines(s)|
  {
    var ls := Lines(s);
    LinesSound(s);
    DownSix();
    ChainOnLines(Down(6), ls);
    ChainDemotes(ls);
    LinesOfConcat(DemoteLines(ls));
  }

  lemma DownSix()
    ensures Down(6) == [6, 5, 4, 3, 2, 1]
  {
  }

  /** Down(6) applied line by line is DemoteLine on every line. */
  lemma ChainDemotes(ls: seq<string>)
    ensures ChainLines(Down(6), ls) == DemoteLines(ls)
  {
    var r := ChainLines(Down(6), ls);
    forall i | 0 <= i < |ls| ensures r[i] == DemoteLine(ls[i]) {
      ChainDown(6, ls[i]);
    }
  }

  /** Line by line, the whole replacement chain raises headings of levels 1 to 6 by one level and
      leaves every other line as it was; so no line of the result is a level-1 heading. */
  lemma DemoteLevels(s: string)
    ensures var ins := Lines(s); var outs := Lines(Demote(s));
      && |outs| == |ins|
      && (forall i :: 0 <= i < |ins| && 1 <= Level(ins[i]) <= 6 ==>
            outs[i] == "#" + ins[i] && Level(outs[i]) == Level(ins[i]) + 1)
      && (forall i :: 0 <= i < |ins| && !(1 <= Level(ins[i]) <= 6) ==> outs[i] == ins[i])
      && (forall i :: 0 <= i < |outs| ==> Level(outs[i]) != 1)
  {
    var ins := Lines(s);
    DemoteByLines(s);
    forall i | 0 <= i < |ins| && 1 <= Level(ins[i]) <= 6 ensures Level("#" + ins[i]) == Level(ins[i]) + 1 {
      LevelPrepend(ins[i]);
    }
  }
}
