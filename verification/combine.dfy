/** The documentation aggregator: every `.md`/`.mdx` document below the documentation root,
    read into a record, grouped by directory, ordered, and written out as one text with its
    headings demoted. */
module Combine {
  import opened Wrappers
  import opened Text
  import opened FrontMatter
  import opened Fence
  import opened Sorting
  import opened Files
  import opened Headings

  const TitleKey := "title"
  const PositionKey := "sidebar_position"

  /** The position of a document whose front matter gives no truthy `sidebar_position`. */
  const DefaultPosition := 999

  /** The group name of the documents directly in the documentation root. */
  const RootGroup := "root"

  /** One document as the aggregator keeps it. `sidebarPosition` is whatever truthy value the
      front matter holds, or 999. */
  datatype DocEntry = DocEntry(
    path: string,
    title: string,
    content: string,
    frontMatter: Entries,
    sidebarPosition: Value,
    directory: string)

  // ---------------------------------------------------------------------------------------------
  // Per-file derivation

  /** `String(v)` of the JavaScript runtime: arrays join their items with `,`, writing `null`
      items as nothing; every mapping is `[object Object]`. */
  function JsString(v: Value): string
    decreases v
  {
    match v
    case Null => "null"
    case Bool(b) => if b then "true" else "false"
    case Num(n) => IntToDecimal(n)
    case Str(s) => s
    case List(items) =>
      Join(seq(|items|, i requires 0 <= i < |items| => if items[i].Null? then "" else JsString(items[i])), ",")
    case Mapping(_) => "[object Object]"
  }

  /** The index of the last `.` among the first n characters of s. */
  function LastDot(s: string, n: nat): (r: Option<nat>)
    requires n <= |s|
    ensures r.Some? ==> r.value < n && s[r.value] == '.'
    ensures r.Some? ==> forall k :: r.value < k < n ==> s[k] != '.'
    ensures r.None? ==> forall k :: 0 <= k < n ==> s[k] != '.'
  {
    if n == 0 then None
    else if s[n - 1] == '.' then Some(n - 1)
    else LastDot(s, n - 1)
  }

  /** `path.basename(name, path.extname(name))` for an entry name: the extension runs from the last
      `.` to the end, unless that `.` opens the name, in which case there is none. */
  function Stem(name: string): string {
    match LastDot(name, |name|)
    case Some(d) => if d > 0 then name[..d] else name
    case None => name
  }

  /** The fallback title of a document file: its name without `.md` or `.mdx`. A name that is the
      bare extension has no extension in the runtime's sense and is kept whole. */
  lemma StemOfDocName(x: string, ext: string)
    requires ext == ".md" || ext == ".mdx"
    ensures Stem(x + ext) == if x == [] then ext else x
  {
    var name := x + ext;
    assert name[|x|] == '.';
    forall k | |x| < k < |name| ensures name[k] != '.' {
      assert name[k] == ext[k - |x|];
    }
    assert LastDot(name, |name|) == Some(|x|) by {
      LastDotAt(name, |name|, |x|);
    }
    if x != [] {
      assert name[..|x|] == x;
    }
  }

  lemma {:induction false} LastDotAt(s: string, n: nat, d: nat)
    requires d < n <= |s| && s[d] == '.'
    requires forall k :: d < k < n ==> s[k] != '.'
    ensures LastDot(s, n) == Some(d)
    decreases n
  {
    if n - 1 > d {
      LastDotAt(s, n - 1, d);
    }
  }

  /** `frontMatter.title || basename`, rendered as the section heading renders it. */
  function TitleOf(fm: Entries, name: string): string {
    match Get(fm, TitleKey)
    case Some(v) => if Truthy(v) then JsString(v) else Stem(name)
    case None => Stem(name)
  }

  /** `frontMatter.sidebar_position || 999`. */
  function PositionOf(fm: Entries): Value {
    match Get(fm, PositionKey)
    case Some(v) => if Truthy(v) then v else Num(DefaultPosition)
    case None => Num(DefaultPosition)
  }

  /** `path.dirname` of the relative path, with `.` read as the root group. */
  function DirectoryOf(dirs: seq<string>): string {
    if dirs == [] then RootGroup else Join(dirs, "/")
  }

  /** The record of the file `name` reached through the subdirectories `dirs`. */
  function DocOf(load: Loader, dirs: seq<string>, name: string, text: string): DocEntry {
    var p := ParseStrict(load, text);
    DocEntry(Join(dirs + [name], "/"), TitleOf(p.frontMatter, name), p.body, p.frontMatter,
             PositionOf(p.frontMatter), DirectoryOf(dirs))
  }

  /** The title is a truthy front-matter title, rendered; otherwise, including for an empty or
      falsy title, the file name without its extension. */
  lemma TitleChoice(fm: Entries, x: string, ext: string)
    requires ext == ".md" || ext == ".mdx"
    ensures (Get(fm, TitleKey).Some? && Truthy(Get(fm, TitleKey).value)) ==>
              TitleOf(fm, x + ext) == JsString(Get(fm, TitleKey).value)
    ensures !(Get(fm, TitleKey).Some? && Truthy(Get(fm, TitleKey).value)) ==>
              TitleOf(fm, x + ext) == if x == [] then ext else x
    ensures x != [] && Get(fm, TitleKey) == Some(Str(x)) ==> TitleOf(fm, x + ext) == x
  {
    StemOfDocName(x, ext);
  }

  /** A position of `0`, `null`, `false` or `""` counts as missing and becomes 999; any truthy
      value is kept as it is. */
  lemma PositionChoice(fm: Entries)
    ensures (Get(fm, PositionKey).Some? && Truthy(Get(fm, PositionKey).value)) <==>
              PositionOf(fm) != Num(DefaultPosition) || Get(fm, PositionKey) == Some(Num(DefaultPosition))
    ensures Get(fm, PositionKey) == Some(Num(0)) ==> PositionOf(fm) == Num(DefaultPosition)
    ensures Truthy(PositionOf(fm))
  {
  }

  /** The root group is the documentation root itself, but a subdirectory named `root` directly
      below it lands in the same group. */
  lemma RootGroupShared()
    ensures DirectoryOf([]) == RootGroup
    ensures DirectoryOf([RootGroup]) == RootGroup
    ensures forall d :: d != [] && d != RootGroup ==> DirectoryOf([d]) == d
  {
  }

  /** A file without a front-matter block is kept whole under an empty mapping, titled after its
      name, at position 999. */
  lemma DocOfPlain(load: Loader, dirs: seq<string>, x: string, ext: string, text: string)
    requires ext == ".md" || ext == ".mdx"
    requires !StartsWith(text, "---\n")
    ensures var d := DocOf(load, dirs, x + ext, text);
      && d.content == text && d.frontMatter == []
      && d.title == (if x == [] then ext else x)
      && d.sidebarPosition == Num(DefaultPosition)
  {
    ParseStrictFallback(load, text);
    StemOfDocName(x, ext);
  }

  // ---------------------------------------------------------------------------------------------
  // Collection

  /** `traverseDirectory`: the documents of a directory in listing order, each subdirectory's
      documents at its place in the listing. No subdirectory is skipped. */
  function CollectDir(load: Loader, dirs: seq<string>, dir: Node): seq<DocEntry>
    requires dir.Dir?
    decreases dir, 1
  {
    CollectFrom(load, dirs, dir, 0)
  }

  function CollectFrom(load: Loader, dirs: seq<string>, dir: Node, i: nat): seq<DocEntry>
    requires dir.Dir? && i <= |dir.entries|
    decreases dir, 0, |dir.entries| - i, 1
  {
    if i == |dir.entries| then []
    else EntryDocs(load, dirs, dir, i) + CollectFrom(load, dirs, dir, i + 1)
  }

  /** A file somewhere below a directory: its chain of subdirectory names, its name and its text. */
  datatype Located = Located(rel: seq<string>, name: string, text: string)

  /** The file `f` sits in `dir` at the end of its chain of subdirectories. */
  ghost predicate FileAt(dir: Node, f: Located)
    decreases f.rel
  {
    && dir.Dir?
    && if f.rel == [] then File(f.name, f.text) in dir.entries
       else exists e :: e in dir.entries && e.Dir? && e.name == f.rel[0] && FileAt(e, Down1(f))
  }

  /** The same file seen from one directory further down. */
  function Down1(f: Located): Located
    requires f.rel != []
  {
    f.(rel := f.rel[1..])
  }

  /** The file `f` sits below one of the entries of `dir` from index i on. */
  ghost predicate FileAtFrom(dir: Node, i: nat, f: Located)
    requires dir.Dir?
  {
    exists k :: i <= k < |dir.entries| && EntryHolds(dir.entries[k], f)
  }

  /** The file `f` is the entry e itself, or sits below it. */
  ghost predicate EntryHolds(e: Node, f: Located) {
    if f.rel == [] then e == File(f.name, f.text)
    else e.Dir? && e.name == f.rel[0] && FileAt(e, Down1(f))
  }

  /** The record a located file gives when collected from below `dirs`. */
  function RecordOf(load: Loader, dirs: seq<string>, f: Located): DocEntry {
    DocOf(load, dirs + f.rel, f.name, f.text)
  }

  /** Collection keeps exactly the documents, wherever they sit below the root. */
  lemma {:induction false} CollectDirExactly(load: Loader, dirs: seq<string>, dir: Node, d: DocEntry)
    requires dir.Dir?
    ensures d in CollectDir(load, dirs, dir) <==>
              exists f :: FileAt(dir, f) && IsDocName(f.name) && d == RecordOf(load, dirs, f)
    decreases dir, 1
  {
    CollectFromExactly(load, dirs, dir, 0, d);
    forall f ensures FileAt(dir, f) <==> FileAtFrom(dir, 0, f) {
      FileAtSplit(dir, f);
    }
  }

  lemma FileAtSplit(dir: Node, f: Located)
    requires dir.Dir?
    ensures FileAt(dir, f) <==> FileAtFrom(dir, 0, f)
  {
    if FileAt(dir, f) {
      if f.rel == [] {
        var k :| 0 <= k < |dir.entries| && dir.entries[k] == File(f.name, f.text);
        assert EntryHolds(dir.entries[k], f);
      } else {
        var e :| e in dir.entries && e.Dir? && e.name == f.rel[0] && FileAt(e, Down1(f));
        var k :| 0 <= k < |dir.entries| && dir.entries[k] == e;
        assert EntryHolds(dir.entries[k], f);
      }
    }
    if FileAtFrom(dir, 0, f) {
      var k :| 0 <= k < |dir.entries| && EntryHolds(dir.entries[k], f);
      assert dir.entries[k] in dir.entries;
    }
  }

  lemma {:induction false} CollectFromExactly(load: Loader, dirs: seq<string>, dir: Node, i: nat, d: DocEntry)
    requires dir.Dir? && i <= |dir.entries|
    ensures d in CollectFrom(load, dirs, dir, i) <==>
              exists f :: FileAtFrom(dir, i, f) && IsDocName(f.name) && d == RecordOf(load, dirs, f)
    decreases dir, 0, |dir.entries| - i, 2
  {
    if i < |dir.entries| {
      var e := dir.entries[i];
      CollectFromExactly(load, dirs, dir, i + 1, d);
      CollectEntryExactly(load, dirs, dir, i, d);
      FileAtFromStep(dir, i);
      CollectFromUnion(load, dirs, dir, i, d);
    }
  }

  /** The documents the entry at index i contributes. */
  function EntryDocs(load: Loader, dirs: seq<string>, dir: Node, i: nat): seq<DocEntry>
    requires dir.Dir? && i < |dir.entries|
    decreases dir, 0, |dir.entries| - i, 0
  {
    var e := dir.entries[i];
    match e
    case Dir(n, _) => CollectDir(load, dirs + [n], e)
    case File(n, text) => if IsDocName(n) then [DocOf(load, dirs, n, text)] else []
  }

  lemma CollectFromUnion(load: Loader, dirs: seq<string>, dir: Node, i: nat, d: DocEntry)
    requires dir.Dir? && i < |dir.entries|
    ensures d in CollectFrom(load, dirs, dir, i) <==>
              d in EntryDocs(load, dirs, dir, i) || d in CollectFrom(load, dirs, dir, i + 1)
  {
    assert CollectFrom(load, dirs, dir, i) == EntryDocs(load, dirs, dir, i) + CollectFrom(load, dirs, dir, i + 1);
  }

  lemma FileAtFromStep(dir: Node, i: nat)
    requires dir.Dir? && i < |dir.entries|
    ensures forall f :: FileAtFrom(dir, i, f) <==> EntryHolds(dir.entries[i], f) || FileAtFrom(dir, i + 1, f)
  {
    forall f ensures FileAtFrom(dir, i, f) <==> EntryHolds(dir.entries[i], f) || FileAtFrom(dir, i + 1, f) {
      if FileAtFrom(dir, i, f) {
        var k :| i <= k < |dir.entries| && EntryHolds(dir.entries[k], f);
        if k > i {
          assert FileAtFrom(dir, i + 1, f);
        }
      }
      if FileAtFrom(dir, i + 1, f) {
        var k :| i + 1 <= k < |dir.entries| && EntryHolds(dir.entries[k], f);
        assert FileAtFrom(dir, i, f);
      }
      if EntryHolds(dir.entries[i], f) {
        assert FileAtFrom(dir, i, f);
      }
    }
  }

  /** What one entry contributes: the file itself if it is a document, or everything below it. */
  lemma CollectEntryExactly(load: Loader, dirs: seq<string>, dir: Node, i: nat, d: DocEntry)
    requires dir.Dir? && i < |dir.entries|
    ensures d in EntryDocs(load, dirs, dir, i) <==>
              exists f :: EntryHolds(dir.entries[i], f) && IsDocName(f.name) && d == RecordOf(load, dirs, f)
    decreases dir, 0, |dir.entries| - i, 1
  {
    var e := dir.entries[i];
    match e
    case File(n, text) =>
      var f0 := Located([], n, text);
      assert [] + f0.rel == [] && dirs + [] == dirs;
      forall f | EntryHolds(e, f) ensures f == f0 {
      }
      assert EntryHolds(e, f0);
    case Dir(n, _) =>
      CollectDirExactly(load, dirs + [n], e, d);
      SubdirRecords(load, dirs, e, d);
  }

  /** The documents below a subdirectory, seen from its parent. */
  lemma SubdirRecords(load: Loader, dirs: seq<string>, e: Node, d: DocEntry)
    requires e.Dir?
    ensures (exists f :: FileAt(e, f) && IsDocName(f.name) && d == RecordOf(load, dirs + [e.name], f)) <==>
            (exists f :: EntryHolds(e, f) && IsDocName(f.name) && d == RecordOf(load, dirs, f))
  {
    if exists f :: FileAt(e, f) && IsDocName(f.name) && d == RecordOf(load, dirs + [e.name], f) {
      var f :| FileAt(e, f) && IsDocName(f.name) && d == RecordOf(load, dirs + [e.name], f);
      SubdirUp(load, dirs, e, f);
    }
    if exists f :: EntryHolds(e, f) && IsDocName(f.name) && d == RecordOf(load, dirs, f) {
      var g :| EntryHolds(e, g) && IsDocName(g.name) && d == RecordOf(load, dirs, g);
      SubdirDown(load, dirs, e, g);
    }
  }

  /** A file below the subdirectory e, addressed from e's parent. */
  function Up(name: string, f: Located): (g: Located)
    ensures g.rel != [] && Down1(g) == f
  {
    var g := f.(rel := [name] + f.rel);
    assert g.rel[1..] == f.rel;
    g
  }

  lemma SubdirUp(load: Loader, dirs: seq<string>, e: Node, f: Located)
    requires e.Dir? && FileAt(e, f)
    ensures EntryHolds(e, Up(e.name, f)) && Up(e.name, f).name == f.name
    ensures RecordOf(load, dirs, Up(e.name, f)) == RecordOf(load, dirs + [e.name], f)
  {
    assert dirs + ([e.name] + f.rel) == (dirs + [e.name]) + f.rel;
  }

  lemma SubdirDown(load: Loader, dirs: seq<string>, e: Node, g: Located)
    requires e.Dir? && EntryHolds(e, g)
    ensures g.rel != [] && FileAt(e, Down1(g))
    ensures RecordOf(load, dirs + [e.name], Down1(g)) == RecordOf(load, dirs, g)
  {
    assert g.rel == [e.name] + Down1(g).rel;
    assert dirs + ([e.name] + Down1(g).rel) == (dirs + [e.name]) + Down1(g).rel;
  }


  // ---------------------------------------------------------------------------------------------
  // Grouping and ordering

  /** The priority table: these groups come first, in this order. */
  const DirectoryOrder: seq<string> := [
    "root", "installation", "tutorials", "cli", "models", "controllers", "routing", "serializers",
    "openapi", "specs", "decorators", "plugins", "utils", "config", "deployment", "editors",
    "contributing", "learn-more"]

  /** The keys of the grouping object as the reduce creates them: directories in the order their
      first document is met. */
  function Directories(files: seq<DocEntry>): (r: seq<string>)
    ensures Distinct(r)
    ensures forall d :: d in r <==> exists f :: f in files && f.directory == d
  {
    if files == [] then []
    else
      var front := files[..|files| - 1];
      var g := Directories(front);
      var d := files[|files| - 1].directory;
      assert files == front + [files[|files| - 1]];
      if d in g then g
      else
        assert forall i :: 0 <= i < |g| ==> (g + [d])[i] == g[i];
        g + [d]
  }

  /** Some document of directory d is collected before every document of directory e. */
  predicate SeenBefore(files: seq<DocEntry>, d: string, e: string) {
    forall k :: 0 <= k < |files| && files[k].directory == e ==>
      exists m :: 0 <= m < k && files[m].directory == d
  }

  /** The groups are keyed in the order their first document was collected, which is the order
      `Object.keys` lists them in and so the order of the groups outside the table. */
  lemma {:induction false} DirectoriesFirstSeen(files: seq<DocEntry>)
    ensures forall i, j :: 0 <= i < j < |Directories(files)| ==>
              SeenBefore(files, Directories(files)[i], Directories(files)[j])
  {
    if files != [] {
      var front := files[..|files| - 1];
      var x := files[|files| - 1];
      assert files == front + [x];
      var g := Directories(front);
      DirectoriesFirstSeen(front);
      var r := Directories(files);
      forall i, j | 0 <= i < j < |r| ensures SeenBefore(files, r[i], r[j]) {
        assert r[i] == g[i];
        assert r[i] in g;
        var f :| f in front && f.directory == r[i];
        var m0 :| 0 <= m0 < |front| && front[m0] == f;
        if j < |g| {
          assert r[j] == g[j];
          SeenBeforeSnoc(front, x, r[i], r[j], m0);
        } else {
          assert r[j] == x.directory && x.directory !in g;
          forall k | 0 <= k < |files| && files[k].directory == r[j]
            ensures exists m :: 0 <= m < k && files[m].directory == r[i]
          {
            assert files[m0] == f;
          }
        }
      }
    }
  }

  lemma SeenBeforeSnoc(front: seq<DocEntry>, x: DocEntry, d: string, e: string, m0: nat)
    requires SeenBefore(front, d, e)
    requires m0 < |front| && front[m0].directory == d
    ensures SeenBefore(front + [x], d, e)
  {
    var files := front + [x];
    forall k | 0 <= k < |files| && files[k].directory == e
      ensures exists m :: 0 <= m < k && files[m].directory == d
    {
      if k < |front| {
        assert files[k] == front[k];
        var m :| 0 <= m < k && front[m].directory == d;
        assert files[m] == front[m];
      } else {
        assert files[m0] == front[m0];
      }
    }
  }

  function InDir(d: string): DocEntry -> bool {
    (f: DocEntry) => f.directory == d
  }

  /** The documents of directory d, in collection order. */
  function Group(files: seq<DocEntry>, d: string): seq<DocEntry> {
    Filter(InDir(d), files)
  }

  /** The comparator `a.sidebarPosition - b.sidebarPosition`, read as "a may stay before b". */
  predicate PositionLe(a: DocEntry, b: DocEntry) {
    ToNumber(a.sidebarPosition) <= ToNumber(b.sidebarPosition)
  }

  /** The in-place stable sort of one group by position, with no tie-break on the name. */
  function SortGroup(g: seq<DocEntry>): (r: seq<DocEntry>)
    ensures multiset(r) == multiset(g)
  {
    InsertionSort(PositionLe, g)
  }

  /** The index of the first occurrence of x. */
  function IndexOf(s: seq<string>, x: string): (k: nat)
    requires x in s
    ensures k < |s| && s[k] == x
    ensures forall j :: 0 <= j < k ==> s[j] != x
  {
    if s[0] == x then 0 else 1 + IndexOf(s[1..], x)
  }

  /** The loop over the table: a present group is emitted and deleted, so a name the table
      repeated would be emitted once. */
  function Listed(table: seq<string>, present: set<string>): seq<string>
    decreases |table|
  {
    if table == [] then []
    else if table[0] in present then [table[0]] + Listed(table[1..], present - {table[0]})
    else Listed(table[1..], present)
  }

  /** The table loop emits each present table group once, in table order. */
  lemma {:induction false} ListedOrder(table: seq<string>, present: set<string>)
    ensures forall x :: x in Listed(table, present) <==> x in table && x in present
    ensures Distinct(Listed(table, present))
    ensures InTableOrder(table, Listed(table, present))
    decreases |table|
  {
    if table != [] {
      var t := table[0];
      var present' := if t in present then present - {t} else present;
      ListedOrder(table[1..], present');
      ListedStep(table, present, present');
    }
  }

  /** One step of the table loop, given what the rest of the loop emits. */
  lemma ListedStep(table: seq<string>, present: set<string>, present': set<string>)
    requires table != []
    requires present' == if table[0] in present then present - {table[0]} else present
    requires var rest := Listed(table[1..], present');
      && (forall x :: x in rest <==> x in table[1..] && x in present')
      && Distinct(rest)
      && InTableOrder(table[1..], rest)
    ensures forall x :: x in Listed(table, present) <==> x in table && x in present
    ensures Distinct(Listed(table, present))
    ensures InTableOrder(table, Listed(table, present))
  {
    var t := table[0];
    var rest := Listed(table[1..], present');
    assert forall x :: x in table <==> x == t || x in table[1..] by {
      assert table == [t] + table[1..];
    }
    forall x | x in rest ensures x != t && 0 < IndexOf(table, x) && IndexOf(table, x) == 1 + IndexOf(table[1..], x) {
      IndexOfTail(table, x);
    }
    assert InTableOrder(table, rest) by {
      forall i, j | 0 <= i < j < |rest| && rest[i] in table && rest[j] in table
        ensures IndexOf(table, rest[i]) < IndexOf(table, rest[j])
      {
        assert rest[i] in rest && rest[j] in rest;
      }
    }
    if t in present {
      assert Listed(table, present) == [t] + rest;
      ListedCons(t, rest, table);
    } else {
      assert Listed(table, present) == rest;
    }
  }

  lemma IndexOfTail(table: seq<string>, x: string)
    requires table != [] && x in table[1..] && x != table[0]
    ensures x in table && IndexOf(table, x) == 1 + IndexOf(table[1..], x)
  {
  }

  /** Consecutive emitted names keep the order of their first appearance in the table. */
  ghost predicate InTableOrder(table: seq<string>, r: seq<string>) {
    forall i, j :: 0 <= i < j < |r| && r[i] in table && r[j] in table ==> IndexOf(table, r[i]) < IndexOf(table, r[j])
  }

  lemma ListedCons(t: string, rest: seq<string>, table: seq<string>)
    requires table != [] && table[0] == t && t !in rest
    requires forall x :: x in rest ==> x in table && IndexOf(table, x) > 0
    requires Distinct(rest)
    requires InTableOrder(table, rest)
    ensures Distinct([t] + rest)
    ensures InTableOrder(table, [t] + rest)
  {
    var r := [t] + rest;
    forall i, j | 0 <= i < j < |r| ensures r[i] != r[j] && IndexOf(table, r[i]) < IndexOf(table, r[j]) {
      assert rest[j - 1] in rest;
      assert r[j] == rest[j - 1];
      if i > 0 {
        assert r[i] == rest[i - 1];
      }
    }
  }

  predicate IsUnlisted(d: string) {
    d !in DirectoryOrder
  }

  /** Where a group's block goes: its table index if listed, after the whole table otherwise. */
  function Rank(d: string): nat {
    if d in DirectoryOrder then IndexOf(DirectoryOrder, d) else |DirectoryOrder|
  }

  /** The order groups are emitted in: present table groups in table order, then the remaining
      keys in creation order. */
  function GroupOrder(files: seq<DocEntry>): seq<string> {
    var dirs := Directories(files);
    Listed(DirectoryOrder, Present(dirs)) + Filter(IsUnlisted, dirs)
  }

  predicate RankSorted(order: seq<string>) {
    forall i, j :: 0 <= i < j < |order| ==> Rank(order[i]) <= Rank(order[j])
  }

  /** The directories present, as the set the table loop deletes from. */
  function Present(dirs: seq<string>): (p: set<string>)
    ensures forall d :: d in p <==> d in dirs
  {
    set d | d in dirs
  }

  /** Every group is emitted exactly once, and in rank order. */
  lemma GroupOrderSound(files: seq<DocEntry>)
    ensures Distinct(GroupOrder(files))
    ensures forall d :: d in GroupOrder(files) <==> exists f :: f in files && f.directory == d
    ensures RankSorted(GroupOrder(files))
  {
    var dirs := Directories(files);
    var listed := Listed(DirectoryOrder, Present(dirs));
    var rest := Filter(IsUnlisted, dirs);
    assert GroupOrder(files) == listed + rest;
    ListedOrder(DirectoryOrder, Present(dirs));
    FilterDistinct(IsUnlisted, dirs);
    forall d ensures d in rest <==> d in dirs && IsUnlisted(d) {
      FilterCount(IsUnlisted, dirs, d);
    }
    OrderConcat(listed, rest);
  }

  lemma OrderConcat(listed: seq<string>, rest: seq<string>)
    requires Distinct(listed) && Distinct(rest)
    requires forall x :: x in listed ==> x in DirectoryOrder
    requires forall x :: x in rest ==> IsUnlisted(x)
    requires InTableOrder(DirectoryOrder, listed)
    ensures Distinct(listed + rest)
    ensures RankSorted(listed + rest)
  {
    var o := listed + rest;
    forall i, j | 0 <= i < j < |o| ensures o[i] != o[j] && Rank(o[i]) <= Rank(o[j]) {
      if j < |listed| {
        assert o[i] == listed[i] && o[j] == listed[j];
      } else if i < |listed| {
        assert o[i] == listed[i] && o[j] == rest[j - |listed|];
        assert o[i] in listed && o[j] in rest;
      } else {
        assert o[i] == rest[i - |listed|] && o[j] == rest[j - |listed|];
        assert o[i] in rest && o[j] in rest;
      }
    }
  }

  /** The sorted groups, one after another, in the given order. */
  function Blocks(files: seq<DocEntry>, order: seq<string>): seq<DocEntry> {
    if order == [] then [] else SortGroup(Group(files, order[0])) + Blocks(files, order[1..])
  }

  /** `sortFilesByStructure`. */
  function SortByStructure(files: seq<DocEntry>): seq<DocEntry> {
    Blocks(files, GroupOrder(files))
  }

  /** Every element of a sorted group belongs to that group. */
  lemma SortGroupMembers(files: seq<DocEntry>, d: string)
    ensures forall x :: x in SortGroup(Group(files, d)) <==> x in files && x.directory == d
  {
    forall x ensures x in SortGroup(Group(files, d)) <==> x in files && x.directory == d {
      assert x in SortGroup(Group(files, d)) <==> x in multiset(Group(files, d));
      FilterCount(InDir(d), files, x);
    }
  }

  lemma {:induction false} BlocksMembers(files: seq<DocEntry>, order: seq<string>)
    ensures forall x :: x in Blocks(files, order) ==> x.directory in order
  {
    if order != [] {
      BlocksMembers(files, order[1..]);
      SortGroupMembers(files, order[0]);
      forall x | x in Blocks(files, order) ensures x.directory in order {
        assert Blocks(files, order) == SortGroup(Group(files, order[0])) + Blocks(files, order[1..]);
        if x !in SortGroup(Group(files, order[0])) {
          assert x.directory in order[1..];
        }
      }
    }
  }

  /** The order without its first group is still free of repeats, and lacks that group. */
  lemma DistinctTail(order: seq<string>)
    requires order != [] && Distinct(order)
    ensures Distinct(order[1..]) && order[0] !in order[1..]
  {
    forall i, j | 0 <= i < j < |order[1..]| ensures order[1..][i] != order[1..][j] {
      assert order[1..][i] == order[i + 1] && order[1..][j] == order[j + 1];
    }
    forall k | 0 <= k < |order[1..]| ensures order[1..][k] != order[0] {
      assert order[1..][k] == order[k + 1];
    }
  }

  /** Picking one directory out of the blocks gives back exactly that directory's sorted group. */
  lemma {:induction false} BlocksOfDir(files: seq<DocEntry>, order: seq<string>, d: string)
    requires Distinct(order)
    ensures Filter(InDir(d), Blocks(files, order)) == if d in order then SortGroup(Group(files, d)) else []
  {
    if order != [] {
      DistinctTail(order);
      BlocksOfDir(files, order[1..], d);
      BlocksOfDirStep(files, order, d);
    }
  }

  lemma BlocksOfDirStep(files: seq<DocEntry>, order: seq<string>, d: string)
    requires order != [] && order[0] !in order[1..]
    requires Filter(InDir(d), Blocks(files, order[1..]))
          == if d in order[1..] then SortGroup(Group(files, d)) else []
    ensures Filter(InDir(d), Blocks(files, order)) == if d in order then SortGroup(Group(files, d)) else []
  {
    var g := order[0];
    var head := SortGroup(Group(files, g));
    var tail := Blocks(files, order[1..]);
    assert Blocks(files, order) == head + tail;
    SortGroupMembers(files, g);
    assert order == [g] + order[1..];
    if d == g {
      FilterWholeBlock(InDir(d), head, tail);
    } else {
      FilterSkipBlock(InDir(d), head, tail);
    }
  }

  /** A block that passes the filter whole, followed by nothing that passes. */
  lemma FilterWholeBlock<T>(p: T -> bool, head: seq<T>, tail: seq<T>)
    requires forall x :: x in head ==> p(x)
    requires Filter(p, tail) == []
    ensures Filter(p, head + tail) == head
  {
    FilterConcat(p, head, tail);
    FilterAllOrNone(p, head);
    assert head + [] == head;
  }

  /** A block that the filter drops entirely. */
  lemma FilterSkipBlock<T>(p: T -> bool, head: seq<T>, tail: seq<T>)
    requires forall x :: x in head ==> !p(x)
    ensures Filter(p, head + tail) == Filter(p, tail)
  {
    FilterConcat(p, head, tail);
    FilterAllOrNone(p, head);
    assert [] + Filter(p, tail) == Filter(p, tail);
  }

  predicate Contiguous(s: seq<DocEntry>) {
    forall i, j, k :: 0 <= i < j < k < |s| && s[i].directory == s[k].directory ==> s[j].directory == s[i].directory
  }

  lemma {:induction false} BlocksContiguous(files: seq<DocEntry>, order: seq<string>)
    requires Distinct(order)
    ensures Contiguous(Blocks(files, order))
  {
    if order != [] {
      var g := order[0];
      var head := SortGroup(Group(files, g));
      var tail := Blocks(files, order[1..]);
      DistinctTail(order);
      BlocksContiguous(files, order[1..]);
      BlocksMembers(files, order[1..]);
      SortGroupMembers(files, g);
      ContiguousConcat(head, tail, g);
    }
  }

  lemma ContiguousConcat(head: seq<DocEntry>, tail: seq<DocEntry>, g: string)
    requires forall x :: x in head ==> x.directory == g
    requires forall x :: x in tail ==> x.directory != g
    requires Contiguous(tail)
    ensures Contiguous(head + tail)
  {
    var s := head + tail;
    forall m | 0 <= m < |s| ensures (m < |head|) == (s[m].directory == g) {
      if m < |head| {
        assert s[m] == head[m];
      } else {
        assert s[m] == tail[m - |head|];
      }
    }
    forall i, j, k | 0 <= i < j < k < |s| && s[i].directory == s[k].directory
      ensures s[j].directory == s[i].directory
    {
      if i >= |head| {
        assert s[i] == tail[i - |head|] && s[j] == tail[j - |head|] && s[k] == tail[k - |head|];
      }
    }
  }

  predicate RankOrdered(s: seq<DocEntry>) {
    forall i, j :: 0 <= i < j < |s| ==> Rank(s[i].directory) <= Rank(s[j].directory)
  }

  lemma {:induction false} BlocksRanked(files: seq<DocEntry>, order: seq<string>)
    requires RankSorted(order)
    ensures RankOrdered(Blocks(files, order))
  {
    if order != [] {
      var g := order[0];
      var head := SortGroup(Group(files, g));
      var tail := Blocks(files, order[1..]);
      assert RankSorted(order[1..]) by {
        forall i, j | 0 <= i < j < |order[1..]| ensures Rank(order[1..][i]) <= Rank(order[1..][j]) {
          assert order[1..][i] == order[i + 1] && order[1..][j] == order[j + 1];
        }
      }
      BlocksRanked(files, order[1..]);
      BlocksMembers(files, order[1..]);
      SortGroupMembers(files, g);
      forall x | x in tail ensures Rank(g) <= Rank(x.directory) {
        var k :| 0 <= k < |order[1..]| && order[1..][k] == x.directory;
        assert order[1..][k] == order[k + 1];
      }
      RankedConcat(head, tail, g);
    }
  }

  lemma RankedConcat(head: seq<DocEntry>, tail: seq<DocEntry>, g: string)
    requires forall x :: x in head ==> x.directory == g
    requires forall x :: x in tail ==> Rank(g) <= Rank(x.directory)
    requires RankOrdered(tail)
    ensures RankOrdered(head + tail)
  {
    var s := head + tail;
    forall i, j | 0 <= i < j < |s| ensures Rank(s[i].directory) <= Rank(s[j].directory) {
      if j < |head| {
        assert s[i] in head && s[j] in head;
      } else if i >= |head| {
        assert s[i] == tail[i - |head|] && s[j] == tail[j - |head|];
      } else {
        assert s[i] in head && s[j] in tail;
      }
    }
  }

  // ---------------------------------------------------------------------------------------------
  // What the ordering guarantees

  /** The ordering loses and invents no document. */
  lemma SortByStructurePermutation(files: seq<DocEntry>)
    ensures multiset(SortByStructure(files)) == multiset(files)
  {
    var order := GroupOrder(files);
    var r := SortByStructure(files);
    GroupOrderSound(files);
    forall x ensures multiset(r)[x] == multiset(files)[x] {
      FilterCount(InDir(x.directory), r, x);
      BlocksOfDir(files, order, x.directory);
      if x.directory in order {
        FilterCount(InDir(x.directory), files, x);
      } else {
        assert x !in files;
      }
    }
  }

  /** The documents of one directory form one unbroken run. */
  lemma SortByStructureContiguous(files: seq<DocEntry>)
    ensures Contiguous(SortByStructure(files))
  {
    GroupOrderSound(files);
    BlocksContiguous(files, GroupOrder(files));
  }

  /** Groups of the table come first and in table order; every other group, including nested
      paths such as `models/x`, comes after all of them. */
  lemma SortByStructureTableOrder(files: seq<DocEntry>)
    ensures var r := SortByStructure(files);
      forall i, j :: 0 <= i < j < |r| && r[j].directory in DirectoryOrder ==>
        r[i].directory in DirectoryOrder
        && IndexOf(DirectoryOrder, r[i].directory) <= IndexOf(DirectoryOrder, r[j].directory)
  {
    GroupOrderSound(files);
    BlocksRanked(files, GroupOrder(files));
  }

  predicate AtPosition(n: int, f: DocEntry) {
    ToNumber(f.sidebarPosition) == n
  }

  function AtPositionOf(n: int): DocEntry -> bool {
    (f: DocEntry) => AtPosition(n, f)
  }

  lemma PositionLePreorder()
    ensures TotalPreorder(PositionLe)
  {
  }

  /** Within one directory the positions do not decrease, and documents with the same position
      keep the order they were collected in. */
  lemma SortByStructureWithinGroup(files: seq<DocEntry>, d: string)
    ensures SortedBy(PositionLe, Filter(InDir(d), SortByStructure(files)))
    ensures forall n :: Filter(AtPositionOf(n), Filter(InDir(d), SortByStructure(files)))
                     == Filter(AtPositionOf(n), Filter(InDir(d), files))
  {
    var order := GroupOrder(files);
    GroupOrderSound(files);
    BlocksOfDir(files, order, d);
    var g := Group(files, d);
    PositionLePreorder();
    if d in order {
      InsertionSortSorted(PositionLe, g);
      forall n ensures Filter(AtPositionOf(n), SortGroup(g)) == Filter(AtPositionOf(n), g) {
        InsertionSortStable(PositionLe, AtPositionOf(n), g);
      }
    } else {
      forall n ensures Filter(AtPositionOf(n), Filter(InDir(d), files)) == [] {
        FilterAllOrNone(InDir(d), files);
      }
    }
  }

  // ---------------------------------------------------------------------------------------------
  // The combined document

  /** The fixed preamble; the generation time is a parameter. */
  function Header(stamp: string): string {
    DocumentTitle + "\n\n*Generated on " + stamp + "*\n\n" + Preface + "\n\n---\n\n"
  }

  const DocumentTitle: string := "# Psychic Guides - Complete Documentation"
  const Preface: string :=
    "This document contains all the Psychic framework documentation combined into a single file for AI consumption."

  /** A document's heading: the bare title at the root, `directory/title` elsewhere. */
  function SectionTitle(f: DocEntry): string {
    if f.directory == RootGroup then f.title else f.directory + "/" + f.title
  }

  /** One document's section: heading, source line, demoted body, rule. */
  function Section(f: DocEntry): string {
    "## " + SectionTitle(f) + "\n\n" + "*Source: " + f.path + "*\n\n" + Demote(f.content) + "\n\n---\n\n"
  }

  /** The rendering of each document, one after another. */
  function RenderAll(render: DocEntry -> string, files: seq<DocEntry>): string {
    if files == [] then [] else render(files[0]) + RenderAll(render, files[1..])
  }

  function Sections(files: seq<DocEntry>): string {
    RenderAll(Section, files)
  }

  /** `generateCombinedMarkdown`. */
  function CombinedMarkdown(stamp: string, files: seq<DocEntry>): string {
    Header(stamp) + Sections(files)
  }

  /** `part` appears somewhere inside `whole`. */
  ghost predicate Occurs(part: string, whole: string) {
    exists k :: OccursAt(part, whole, k)
  }

  predicate OccursAt(part: string, whole: string, k: int) {
    0 <= k <= |whole| - |part| && whole[k..k + |part|] == part
  }

  /** A heading names its directory unless the document sits at the top of the tree (or in a
      directory that is itself called `root`). */
  lemma SectionTitleShape(f: DocEntry)
    ensures SectionTitle(f) == f.title <==> f.directory == RootGroup
    ensures f.directory != RootGroup ==>
      StartsWith(SectionTitle(f), f.directory + "/") && EndsWith(SectionTitle(f), f.title)
  {
    if f.directory != RootGroup {
      var t := SectionTitle(f);
      assert t[..|f.directory| + 1] == f.directory + "/";
      assert t[|t| - |f.title|..] == f.title;
    }
  }

  /** The renderings of the documents before i, then document i's own, then the rest. */
  lemma {:induction false} RenderAllSplit(render: DocEntry -> string, files: seq<DocEntry>, i: nat)
    requires i < |files|
    ensures RenderAll(render, files)
         == RenderAll(render, files[..i]) + render(files[i]) + RenderAll(render, files[i + 1..])
  {
    var f := files[0];
    var tail := files[1..];
    if i == 0 {
      assert files[..0] == [];
      assert files[1..] == tail;
    } else {
      RenderAllSplit(render, tail, i - 1);
      assert tail[..i - 1] == files[1..i] && tail[i - 1] == files[i] && tail[i..] == files[i + 1..];
      assert files[..i] == [f] + files[1..i];
      assert RenderAll(render, files[..i]) == render(f) + RenderAll(render, files[1..i]);
      var b, d := RenderAll(render, files[1..i]), RenderAll(render, files[i + 1..]);
      assert render(f) + (b + render(files[i]) + d) == render(f) + b + render(files[i]) + d;
    }
  }

  /** The combined document opens with the preamble. */
  lemma CombinedStartsWithHeader(stamp: string, files: seq<DocEntry>)
    ensures StartsWith(CombinedMarkdown(stamp, files), Header(stamp))
  {
    StartsWithConcat(Header(stamp), Sections(files));
  }

  /** Each document's section appears, whole, after the preamble and the sections before it. */
  lemma CombinedHasSection(stamp: string, files: seq<DocEntry>, i: nat)
    requires i < |files|
    ensures OccursAt(Section(files[i]), CombinedMarkdown(stamp, files), |Header(stamp)| + |Sections(files[..i])|)
  {
    RenderedAt(Header(stamp), Section, files, i, CombinedMarkdown(stamp, files), Section(files[i]),
               |Header(stamp)| + |Sections(files[..i])|);
  }

  /** Inside `h` followed by the renderings of `files`, the rendering of document i sits right
      after `h` and the renderings of the documents before it. */
  lemma RenderedAt(h: string, render: DocEntry -> string, files: seq<DocEntry>, i: nat, r: string, sec: string, k: int)
    requires i < |files| && r == h + RenderAll(render, files) && sec == render(files[i])
    requires k == |h| + |RenderAll(render, files[..i])|
    ensures StartsWith(r, h)
    ensures OccursAt(sec, r, k)
  {
    var pre, post := RenderAll(render, files[..i]), RenderAll(render, files[i + 1..]);
    RenderAllSplit(render, files, i);
    PieceAt(h, pre, sec, post, r);
  }

  lemma StartsWithConcat(h: string, t: string)
    ensures StartsWith(h + t, h)
  {
    assert (h + t)[..|h|] == h;
  }

  lemma PieceAt(h: string, pre: string, sec: string, post: string, r: string)
    requires r == h + (pre + sec + post)
    ensures StartsWith(r, h)
    ensures OccursAt(sec, r, |h| + |pre|)
  {
    assert r[..|h|] == h;
    assert r[|h| + |pre|..|h| + |pre| + |sec|] == sec;
  }

  /** `main` up to the write: the document for the tree under `docs`, or nothing when `docs` is
      missing or is not a directory (the directory read fails before anything is written). */
  function CombineDocs(load: Loader, stamp: string, docs: Option<Node>): Option<string> {
    if docs.Some? && docs.value.Dir? then
      Some(CombinedMarkdown(stamp, SortByStructure(CollectDir(load, [], docs.value))))
    else None
  }

  /** Where a collected document lands in the ordering. */
  lemma SortedIndex(load: Loader, root: Node, f: Located) returns (i: nat)
    requires root.Dir? && FileAt(root, f) && IsDocName(f.name)
    ensures var sorted := SortByStructure(CollectDir(load, [], root));
      i < |sorted| && sorted[i] == RecordOf(load, [], f)
  {
    var collected := CollectDir(load, [], root);
    var sorted := SortByStructure(collected);
    var d := RecordOf(load, [], f);
    CollectDirExactly(load, [], root, d);
    SortByStructurePermutation(collected);
    assert d in multiset(sorted);
    i :| 0 <= i < |sorted| && sorted[i] == d;
  }

  /** The combined document exists exactly when `docs` is a directory, and then every `.md` or
      `.mdx` file anywhere below it contributes its section, under the preamble. */
  lemma CombineDocsComplete(load: Loader, stamp: string, docs: Option<Node>, f: Located)
    ensures CombineDocs(load, stamp, docs).Some? <==> docs.Some? && docs.value.Dir?
    ensures CombineDocs(load, stamp, docs).Some? ==> StartsWith(CombineDocs(load, stamp, docs).value, Header(stamp))
    ensures CombineDocs(load, stamp, docs).Some? && FileAt(docs.value, f) && IsDocName(f.name) ==>
      Occurs(Section(RecordOf(load, [], f)), CombineDocs(load, stamp, docs).value)
  {
    if docs.Some? && docs.value.Dir? {
      var sorted := SortByStructure(CollectDir(load, [], docs.value));
      CombinedStartsWithHeader(stamp, sorted);
      if FileAt(docs.value, f) && IsDocName(f.name) {
        var i := SortedIndex(load, docs.value, f);
        CombinedHasSection(stamp, sorted, i);
      }
    }
  }
}
