/** Splitting a document into its `---`-fenced YAML block and its body, and writing one back.
    Two patterns occur in the scripts: the strict one of the pagination linker and the aggregator,
    `^---\n([\s\S]*?)\n---\n([\s\S]*)$`, and the lenient one of the ID assigner,
    `^---\s*\n([\s\S]*?)\n---\s*\n([\s\S]*)$`. Both are modelled with the backtracking order of a
    JavaScript regular expression engine: greedy `\s*`, lazy first group, `$` only at the very end. */
module Fence {
  import opened Wrappers
  import opened Text
  import opened FrontMatter

  /** A decoded document: the front-matter mapping and the text after the block. */
  datatype Parsed = Parsed(frontMatter: Entries, body: string)

  /** Shared fallback of every parser: no match, or a YAML error, keeps the whole text as the body
      under an empty mapping; otherwise the loaded document (or `{}` when falsy) and the second group. */
  function Decode(load: Loader, text: string, split: Option<(string, string)>): (r: Parsed)
    ensures split.None? ==> r == Parsed([], text)
    ensures split.Some? && load(split.value.0).LoadError? ==> r == Parsed([], text)
    ensures split.Some? && load(split.value.0).Loaded? ==>
              r == Parsed(MappingOf(load(split.value.0).doc), split.value.1)
  {
    match split
    case None => Parsed([], text)
    case Some((yml, body)) =>
      match load(yml)
      case LoadError => Parsed([], text)
      case Loaded(v) => Parsed(MappingOf(v), body)
  }

  // ---------------------------------------------------------------------------------------------
  // The strict pattern

  /** `\n---\n` starts at index i of s. */
  predicate CloseAt(s: string, i: int) {
    0 <= i && i + 5 <= |s| && s[i..i + 5] == "\n---\n"
  }

  /** A YAML payload that would end the block early: some line after its first one is exactly `---`. */
  predicate HasInnerFenceLine(yml: string) {
    exists j :: 0 <= j < |yml| && CloseAt(yml + "\n", j)
  }

  /** The lazy first group: the first closing fence at or after i. */
  function FindClose(c: string, i: nat): (r: Option<nat>)
    ensures r.Some? ==> i <= r.value && CloseAt(c, r.value)
    ensures r.Some? ==> forall j :: i <= j < r.value ==> !CloseAt(c, j)
    ensures r.None? ==> forall j :: i <= j ==> !CloseAt(c, j)
    decreases |c| - i
  {
    if i + 5 > |c| then None
    else if CloseAt(c, i) then Some(i)
    else FindClose(c, i + 1)
  }

  /** The two groups of `^---\n([\s\S]*?)\n---\n([\s\S]*)$`, if it matches. */
  function SplitStrict(c: string): Option<(string, string)> {
    if !StartsWith(c, "---\n") then None
    else
      match FindClose(c, 4)
      case None => None
      case Some(i) => Some((c[4..i], c[i + 5..]))
  }

  /** `parseFrontMatter` of the pagination linker and `extractFrontMatter` of the aggregator. */
  function ParseStrict(load: Loader, c: string): Parsed {
    Decode(load, c, SplitStrict(c))
  }

  /** `writeFrontMatter` of the pagination linker, content only: the trimmed dump between fences. */
  function WriteStrict(dump: Entries -> string, fm: Entries, body: string): string {
    "---\n" + Trim(dump(fm)) + "\n---\n" + body
  }

  /** Where a fenced text has its payload, a closing fence inside the payload region is exactly an
      inner `---` line of the payload. */
  lemma FencedCloseAt(yml: string, body: string, j: int)
    requires 0 <= j < |yml|
    ensures CloseAt("---\n" + yml + "\n---\n" + body, 4 + j) <==> CloseAt(yml + "\n", j)
  {
    var c := "---\n" + yml + "\n---\n" + body;
    if j + 5 <= |yml| + 1 {
      assert c[4 + j..9 + j] == (yml + "\n")[j..j + 5];
    } else {
      var k := |yml| - j;
      assert 1 <= k <= 3;
      assert c[4 + |yml|] == '\n';
    }
  }

  /** Every strict match is a fenced text whose payload has no inner `---` line. */
  lemma SplitStrictSound(c: string)
    requires SplitStrict(c).Some?
    ensures c == "---\n" + SplitStrict(c).value.0 + "\n---\n" + SplitStrict(c).value.1
    ensures !HasInnerFenceLine(SplitStrict(c).value.0)
  {
    var i := FindClose(c, 4).value;
    var yml, body := c[4..i], c[i + 5..];
    assert c == c[..4] + c[4..i] + c[i..i + 5] + c[i + 5..];
    forall j | 0 <= j < |yml| ensures !CloseAt(yml + "\n", j) {
      FencedCloseAt(yml, body, j);
    }
  }

  /** A fenced text splits back into its payload and body exactly when the payload has no inner
      `---` line. */
  lemma SplitStrictFenced(yml: string, body: string)
    ensures (SplitStrict("---\n" + yml + "\n---\n" + body) == Some((yml, body)))
              <==> !HasInnerFenceLine(yml)
  {
    var c := "---\n" + yml + "\n---\n" + body;
    assert StartsWith(c, "---\n");
    assert CloseAt(c, 4 + |yml|) by {
      assert c[4 + |yml|..9 + |yml|] == "\n---\n";
    }
    if HasInnerFenceLine(yml) {
      var j :| 0 <= j < |yml| && CloseAt(yml + "\n", j);
      FencedCloseAt(yml, body, j);
      assert FindClose(c, 4).value <= 4 + j;
    } else {
      forall j | 4 <= j < 4 + |yml| ensures !CloseAt(c, j) {
        FencedCloseAt(yml, body, j - 4);
      }
      assert FindClose(c, 4) == Some(4 + |yml|);
      assert c[4..4 + |yml|] == yml;
      assert c[4 + |yml| + 5..] == body;
    }
  }

  /** A text with no fence at its start, or with no closing fence, keeps its whole content as body
      under an empty mapping; so does one whose YAML fails to load. */
  lemma ParseStrictFallback(load: Loader, c: string)
    requires !StartsWith(c, "---\n") || (forall i :: 4 <= i ==> !CloseAt(c, i))
             || (SplitStrict(c).Some? && load(SplitStrict(c).value.0).LoadError?)
    ensures ParseStrict(load, c) == Parsed([], c)
  {
  }

  /** A falsy YAML document (`null`, `false`, `0`, `""`) gives the empty mapping and the body. */
  lemma ParseStrictFalsy(load: Loader, yml: string, body: string)
    requires !HasInnerFenceLine(yml)
    requires load(yml).Loaded? && !Truthy(load(yml).doc)
    ensures ParseStrict(load, "---\n" + yml + "\n---\n" + body) == Parsed([], body)
  {
    SplitStrictFenced(yml, body);
  }

  /** The written body comes back verbatim exactly when the trimmed dump has no inner `---` line and
      loads; when it comes back the mapping is whatever the dump loads to. */
  lemma WriteStrictBody(load: Loader, dump: Entries -> string, fm: Entries, body: string)
    ensures (ParseStrict(load, WriteStrict(dump, fm, body)).body == body)
              <==> !HasInnerFenceLine(Trim(dump(fm))) && load(Trim(dump(fm))).Loaded?
  {
    FencedBody(load, Trim(dump(fm)), body);
  }

  lemma FencedBody(load: Loader, yml: string, body: string)
    ensures (ParseStrict(load, "---\n" + yml + "\n---\n" + body).body == body)
              <==> !HasInnerFenceLine(yml) && load(yml).Loaded?
  {
    var c := "---\n" + yml + "\n---\n" + body;
    SplitStrictFenced(yml, body);
    if HasInnerFenceLine(yml) {
      var j :| 0 <= j < |yml| && CloseAt(yml + "\n", j);
      FencedCloseAt(yml, body, j);
      var i := FindClose(c, 4).value;
      assert i <= 4 + j;
      assert |c[i + 5..]| > |body|;
    }
    assert |c| > |body|;
  }

  /** Round trip of the pagination linker's writer, given that the YAML library reads back what it
      dumped and the dump has no inner `---` line. */
  lemma WriteStrictRoundTrip(load: Loader, dump: Entries -> string, fm: Entries, body: string)
    requires load(Trim(dump(fm))) == Loaded(Mapping(fm))
    requires !HasInnerFenceLine(Trim(dump(fm)))
    ensures ParseStrict(load, WriteStrict(dump, fm, body)) == Parsed(fm, body)
  {
    SplitStrictFenced(Trim(dump(fm)), body);
  }

  // ---------------------------------------------------------------------------------------------
  // The lenient pattern of the ID assigner

  /** The last newline among c[lo..hi]: where a greedy `\s*` followed by `\n` settles. */
  function LastNewline(c: string, lo: nat, hi: nat): (r: Option<nat>)
    requires lo <= hi <= |c|
    ensures r.Some? ==> lo <= r.value < hi && c[r.value] == '\n'
    ensures r.Some? ==> forall q :: r.value < q < hi ==> c[q] != '\n'
    ensures r.None? ==> forall q :: lo <= q < hi ==> c[q] != '\n'
    decreases hi - lo
  {
    if hi == lo then None
    else if c[hi - 1] == '\n' then Some(hi - 1)
    else LastNewline(c, lo, hi - 1)
  }

  /** `\n---\s*\n` at index i: the newline the closing `\s*\n` ends on, if any. */
  function LooseCloseAt(c: string, i: nat): Option<nat> {
    if i + 4 <= |c| && c[i..i + 4] == "\n---" then LastNewline(c, i + 4, i + 4 + SpaceRun(c, i + 4))
    else None
  }

  /** The lazy first group starting at `start`: the first closing fence at or after i. */
  function TryClose(c: string, start: nat, i: nat): Option<(string, string)>
    requires start <= i
    decreases |c| - i
  {
    if i + 4 > |c| then None
    else
      match LooseCloseAt(c, i)
      case Some(q) => Some((c[start..i], c[q + 1..]))
      case None => TryClose(c, start, i + 1)
  }

  /** The opening `\s*\n` backtracks from the last newline of the white space run to the first. */
  function TryOpen(c: string, e: nat): Option<(string, string)>
    requires 3 <= e <= |c|
    decreases e
  {
    if e == 3 then None
    else if c[e - 1] == '\n' then
      match TryClose(c, e, e)
      case Some(r) => Some(r)
      case None => TryOpen(c, e - 1)
    else TryOpen(c, e - 1)
  }

  /** The two groups of `^---\s*\n([\s\S]*?)\n---\s*\n([\s\S]*)$`, if it matches. */
  function SplitLoose(c: string): Option<(string, string)> {
    if StartsWith(c, "---") then TryOpen(c, 3 + SpaceRun(c, 3)) else None
  }

  /** `parseFrontMatter` of the ID assigner. */
  function ParseLoose(load: Loader, c: string): Parsed {
    Decode(load, c, SplitLoose(c))
  }

  /** One way the lenient pattern can match c: opening newline at p, first group ending at i,
      closing newline at q. */
  ghost predicate LooseMatch(c: string, p: int, i: int, q: int) {
    && StartsWith(c, "---") && 3 <= p < i && i + 4 <= q < |c|
    && AllSpace(c[3..p]) && c[p] == '\n'
    && c[i..i + 4] == "\n---" && AllSpace(c[i + 4..q]) && c[q] == '\n'
  }

  /** A white space stretch followed by one more white space character lies inside the run. */
  lemma SpaceRunCovers(c: string, a: nat, b: nat)
    requires a <= b < |c| && AllSpace(c[a..b]) && IsSpace(c[b])
    ensures b < a + SpaceRun(c, a)
  {
  }

  lemma LooseCloseAtOfMatch(c: string, p: int, i: int, q: int)
    requires LooseMatch(c, p, i, q)
    ensures LooseCloseAt(c, i).Some?
  {
    SpaceRunCovers(c, i + 4, q);
  }

  lemma {:induction false} TryCloseSound(c: string, p: nat, i: nat)
    requires StartsWith(c, "---") && 3 <= p < i && p < |c| && c[p] == '\n' && AllSpace(c[3..p])
    requires TryClose(c, p + 1, i).Some?
    ensures exists i', q :: LooseMatch(c, p, i', q)
              && TryClose(c, p + 1, i).value == (c[p + 1..i'], c[q + 1..])
    decreases |c| - i
  {
    match LooseCloseAt(c, i)
    case Some(q) =>
      SpaceRunPrefix(c, i + 4, q);
      assert LooseMatch(c, p, i, q);
    case None =>
      TryCloseSound(c, p, i + 1);
  }

  lemma {:induction false} TryOpenSound(c: string, e: nat)
    requires StartsWith(c, "---") && 3 <= e <= 3 + SpaceRun(c, 3)
    requires TryOpen(c, e).Some?
    ensures exists p, i, q :: LooseMatch(c, p, i, q) && TryOpen(c, e).value == (c[p + 1..i], c[q + 1..])
    decreases e
  {
    if c[e - 1] == '\n' && TryClose(c, e, e).Some? {
      SpaceRunPrefix(c, 3, e - 1);
      TryCloseSound(c, e - 1, e);
    } else {
      TryOpenSound(c, e - 1);
    }
  }

  lemma {:induction false} TryCloseComplete(c: string, start: nat, i: nat, i0: nat)
    requires start <= i <= i0 && LooseCloseAt(c, i0).Some?
    ensures TryClose(c, start, i).Some?
    decreases i0 - i
  {
    if i < i0 && LooseCloseAt(c, i).None? {
      TryCloseComplete(c, start, i + 1, i0);
    }
  }

  lemma {:induction false} TryOpenComplete(c: string, e: nat, p: int, i: int, q: int)
    requires LooseMatch(c, p, i, q) && p < e <= |c|
    ensures TryOpen(c, e).Some?
    decreases e
  {
    if e - 1 == p {
      LooseCloseAtOfMatch(c, p, i, q);
      TryCloseComplete(c, e, e, i);
    } else if !(c[e - 1] == '\n' && TryClose(c, e, e).Some?) {
      TryOpenComplete(c, e - 1, p, i, q);
    }
  }

  /** What the lenient split returns are the groups of one of the pattern's matches. */
  lemma SplitLooseSound(c: string)
    ensures SplitLoose(c).Some? ==>
              exists p, i, q :: LooseMatch(c, p, i, q) && SplitLoose(c).value == (c[p + 1..i], c[q + 1..])
  {
    if SplitLoose(c).Some? {
      TryOpenSound(c, 3 + SpaceRun(c, 3));
    }
  }

  /** Whenever the pattern can match, the lenient split succeeds. */
  lemma SplitLooseComplete(c: string)
    ensures (exists p, i, q :: LooseMatch(c, p, i, q)) ==> SplitLoose(c).Some?
  {
    if exists p, i, q :: LooseMatch(c, p, i, q) {
      var p, i, q :| LooseMatch(c, p, i, q);
      SpaceRunCovers(c, 3, p);
      TryOpenComplete(c, 3 + SpaceRun(c, 3), p, i, q);
    }
  }

  /** The search for the last newline can be split at any midpoint. */
  lemma {:induction false} LastNewlineSplit(c: string, lo: nat, mid: nat, hi: nat)
    requires lo <= mid <= hi <= |c|
    ensures LastNewline(c, lo, hi) ==
              if LastNewline(c, mid, hi).Some? then LastNewline(c, mid, hi) else LastNewline(c, lo, mid)
    decreases hi - mid
  {
    if hi > mid && c[hi - 1] != '\n' {
      LastNewlineSplit(c, lo, mid, hi - 1);
    }
  }

  /** The last newline does not depend on what precedes the searched stretch. */
  lemma {:induction false} LastNewlineShift(x: string, y: string, lo: nat, hi: nat)
    requires lo <= hi <= |y|
    ensures LastNewline(x + y, |x| + lo, |x| + hi) ==
              if LastNewline(y, lo, hi).Some? then Some(|x| + LastNewline(y, lo, hi).value) else None
    decreases hi - lo
  {
    if hi > lo {
      assert (x + y)[|x| + hi - 1] == y[hi - 1];
      if y[hi - 1] != '\n' {
        LastNewlineShift(x, y, lo, hi - 1);
      }
    }
  }

  /** What the lenient pattern leaves of a body that follows the closing fence's newline: the
      greedy `\s*\n` swallows the body's leading white space up to and including its last newline. */
  function DropLeadingBlankLines(body: string): (r: string)
    ensures |r| <= |body| && r == body[|body| - |r|..]
    ensures AllSpace(body[..|body| - |r|])
    ensures |r| < |body| ==> body[|body| - |r| - 1] == '\n'
    ensures forall q :: 0 <= q < SpaceRun(r, 0) ==> r[q] != '\n'
  {
    var w := SpaceRun(body, 0);
    match LastNewline(body, 0, w)
    case None =>
      body
    case Some(q) =>
      DropThroughNewline(body, w, q);
      body[q + 1..]
  }

  predicate NoNewlineBefore(s: string, n: nat)
    requires n <= |s|
  {
    forall k :: 0 <= k < n ==> s[k] != '\n'
  }

  /** Cutting the run after its last newline leaves a run without newlines. */
  lemma DropThroughNewline(body: string, w: nat, q: nat)
    requires w == SpaceRun(body, 0) && q < w
    requires forall k :: q < k < w ==> body[k] != '\n'
    ensures AllSpace(body[..q + 1])
    ensures NoNewlineBefore(body[q + 1..], SpaceRun(body[q + 1..], 0))
  {
    SpaceRunPrefix(body, 0, q + 1);
    assert body[0..q + 1] == body[..q + 1];
    var r := body[q + 1..];
    assert body == body[..q + 1] + r;
    SpaceRunShift(body[..q + 1], r, 0);
    SpaceRunFrom(body, 0, q + 1);
    forall k | 0 <= k < SpaceRun(r, 0) ensures r[k] != '\n' {
      assert r[k] == body[q + 1 + k];
    }
  }

  /** `"---\n" + yml + "\n---\n\n" + body`: the layout the ID assigner writes. */
  function WriteLoose(yml: string, body: string): string {
    "---\n" + yml + "\n---\n\n" + body
  }

  /** A line of s other than its first starts with `---` at index j (the newline before it). */
  predicate DashLineAt(s: string, j: int) {
    0 <= j && j + 4 <= |s| && s[j..j + 4] == "\n---"
  }

  /** A payload the lenient pattern reads back unchanged: it starts with a non-space character and
      none of its later lines starts with `---`. */
  predicate SafePayload(yml: string) {
    |yml| > 0 && !IsSpace(yml[0]) && forall j :: 0 <= j < |yml| ==> !DashLineAt(yml, j)
  }

  lemma {:induction false} TryCloseSkip(c: string, start: nat, i: nat, stop: nat)
    requires start <= i <= stop
    requires forall j :: i <= j < stop ==> LooseCloseAt(c, j).None?
    ensures TryClose(c, start, i) == (if stop + 4 > |c| then None else TryClose(c, start, stop))
    decreases stop - i
  {
    if i < stop && i + 4 <= |c| {
      TryCloseSkip(c, start, i + 1, stop);
    }
  }

  lemma WriteLooseOpens(yml: string, body: string)
    requires SafePayload(yml)
    ensures SplitLoose(WriteLoose(yml, body)) == TryClose(WriteLoose(yml, body), 4, 4)
  {
    var c := WriteLoose(yml, body);
    assert StartsWith(c, "---");
    assert c[3] == '\n' && c[4] == yml[0];
    assert SpaceRun(c, 4) == 0;
    assert SpaceRun(c, 3) == 1;
  }

  lemma WriteLooseNoEarlyClose(yml: string, body: string, j: nat)
    requires SafePayload(yml) && 4 <= j < 4 + |yml|
    ensures LooseCloseAt(WriteLoose(yml, body), j).None?
  {
    var c := WriteLoose(yml, body);
    var L := |yml|;
    assert c[4 + L] == '\n';
    if j + 4 <= 4 + L {
      assert c[j..j + 4] == yml[j - 4..j];
      assert !DashLineAt(yml, j - 4);
    }
  }

  /** A `\n---` that ends a prefix ending in two newlines searches the two newlines and the
      body's leading white space for its last newline. */
  lemma CloseBeforeBodyRun(x: string, body: string, i: nat)
    requires |x| == i + 6 && x[i..i + 4] == "\n---" && x[i + 4] == '\n' && x[i + 5] == '\n'
    ensures LooseCloseAt(x + body, i) == LastNewline(x + body, i + 4, |x| + SpaceRun(body, 0))
  {
    var c := x + body;
    assert c[i..i + 4] == x[i..i + 4];
    assert c[i + 4] == '\n' && c[i + 5] == '\n';
    SpaceRunStep(c, i + 4);
    SpaceRunStep(c, i + 5);
    SpaceRunShift(x, body, 0);
    var e := i + 4 + SpaceRun(c, i + 4);
    assert e == |x| + SpaceRun(body, 0);
    LooseCloseAtDash(c, i);
  }

  /** Where `\n---` stands, the closing fence is decided by the white space after it. */
  lemma LooseCloseAtDash(c: string, i: nat)
    requires i + 4 <= |c| && c[i..i + 4] == "\n---"
    ensures LooseCloseAt(c, i) == LastNewline(c, i + 4, i + 4 + SpaceRun(c, i + 4))
  {
  }

  /** ... and finds the body's last leading blank line, or else the second of those newlines. */
  lemma CloseBeforeBody(x: string, body: string, i: nat)
    requires |x| == i + 6 && x[i..i + 4] == "\n---" && x[i + 4] == '\n' && x[i + 5] == '\n'
    ensures LooseCloseAt(x + body, i) ==
              match LastNewline(body, 0, SpaceRun(body, 0))
              case Some(q) => Some(|x| + q)
              case None => Some(i + 5)
  {
    CloseBeforeBodyRun(x, body, i);
    LastNewlineIntoBody(x, body, i + 4);
  }

  /** Searching back from inside the body's white space run into a prefix that ends in a newline:
      the run's last newline, or else that final newline of the prefix. */
  lemma LastNewlineIntoBody(x: string, body: string, lo: nat)
    requires lo < |x| && x[|x| - 1] == '\n'
    ensures LastNewline(x + body, lo, |x| + SpaceRun(body, 0)) ==
              match LastNewline(body, 0, SpaceRun(body, 0))
              case Some(q) => Some(|x| + q)
              case None => Some(|x| - 1)
  {
    var c := x + body;
    var w := SpaceRun(body, 0);
    LastNewlineSplit(c, lo, |x|, |x| + w);
    LastNewlineShift(x, body, 0, w);
    assert c[|x| - 1] == '\n';
    LastNewlineAtEnd(c, lo, |x|);
  }

  lemma LastNewlineAtEnd(c: string, lo: nat, hi: nat)
    requires lo < hi <= |c| && c[hi - 1] == '\n'
    ensures LastNewline(c, lo, hi) == Some(hi - 1)
  {
  }

  lemma WriteLooseCloses(yml: string, body: string)
    ensures LooseCloseAt(WriteLoose(yml, body), 4 + |yml|).Some?
    ensures WriteLoose(yml, body)[LooseCloseAt(WriteLoose(yml, body), 4 + |yml|).value + 1..]
              == DropLeadingBlankLines(body)
  {
    var L := |yml|;
    var x := "---\n" + yml + "\n---\n\n";
    assert WriteLoose(yml, body) == x + body;
    assert |x| == L + 10 && x[4 + L..8 + L] == "\n---" && x[8 + L] == '\n' && x[9 + L] == '\n';
    CloseBeforeBodyRest(x, body, 4 + L);
  }

  /** What follows the closing newline is the body without its leading blank lines. */
  lemma CloseBeforeBodyRest(x: string, body: string, i: nat)
    requires |x| == i + 6 && x[i..i + 4] == "\n---" && x[i + 4] == '\n' && x[i + 5] == '\n'
    ensures LooseCloseAt(x + body, i).Some?
    ensures (x + body)[LooseCloseAt(x + body, i).value + 1..] == DropLeadingBlankLines(body)
  {
    var c := x + body;
    CloseBeforeBody(x, body, i);
    var close := LooseCloseAt(c, i);
    match LastNewline(body, 0, SpaceRun(body, 0))
    case None =>
      assert close == Some(|x| - 1);
      assert c[|x|..] == body == DropLeadingBlankLines(body);
    case Some(q) =>
      assert close == Some(|x| + q);
      assert c[|x| + q + 1..] == body[q + 1..] == DropLeadingBlankLines(body);
  }

  lemma TryCloseHit(c: string, start: nat, i: nat)
    requires start <= i && i + 4 <= |c| && LooseCloseAt(c, i).Some?
    ensures TryClose(c, start, i) == Some((c[start..i], c[LooseCloseAt(c, i).value + 1..]))
  {
  }

  /** The lenient split of a text whose first closing fence after the opening is at 4 + L. */
  lemma SplitLooseAt(c: string, L: nat)
    requires SplitLoose(c) == TryClose(c, 4, 4)
    requires 4 + L + 4 <= |c|
    requires forall j :: 4 <= j < 4 + L ==> LooseCloseAt(c, j).None?
    requires LooseCloseAt(c, 4 + L).Some?
    ensures SplitLoose(c) == Some((c[4..4 + L], c[LooseCloseAt(c, 4 + L).value + 1..]))
  {
    TryCloseSkip(c, 4, 4, 4 + L);
    TryCloseHit(c, 4, 4 + L);
  }

  /** Reading back what the ID assigner writes returns the payload exactly, but the body loses the
      blank line the writer inserts together with any further leading blank lines: no body round
      trip holds for this layout. */
  lemma WriteLooseReparse(yml: string, body: string)
    requires SafePayload(yml)
    ensures SplitLoose(WriteLoose(yml, body)) == Some((yml, DropLeadingBlankLines(body)))
  {
    var c := WriteLoose(yml, body);
    var L := |yml|;
    assert |c| == L + 10 + |body| && c[4..4 + L] == yml;
    WriteLooseOpens(yml, body);
    forall j | 4 <= j < 4 + L ensures LooseCloseAt(c, j).None? {
      WriteLooseNoEarlyClose(yml, body, j);
    }
    WriteLooseCloses(yml, body);
    SplitLooseAt(c, L);
  }
}
