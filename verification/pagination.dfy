/** The pagination linker: in every documentation directory, the `.mdx` pages are ordered by
    `sidebar_position` and then file name, the first page gets `pagination_prev: null`, the last
    gets `pagination_next: null`, and stale null markers are removed from the pages in between,
    so that previous/next navigation never crosses a directory boundary. */
module Pagination {
  import opened Wrappers
  import opened Text
  import opened FrontMatter
  import opened Fence
  import opened Sorting
  import opened Files

  const Prev := "pagination_prev"
  const Next := "pagination_next"
  const SidebarPosition := "sidebar_position"

  /** What the linker is given from outside: the YAML loader and dumper, and the file-name order
      (`localeCompare`, read as "sorts no later than"). */
  datatype Env = Env(load: Loader, dump: Entries -> string, nameLe: (string, string) -> bool)

  /** One `.mdx` page as read: its file name and the two halves of its text. */
  datatype DocFile = DocFile(fileName: string, frontMatter: Entries, body: string)

  /** The YAML library keeps what it dumps: the trimmed dump of any mapping loads back to that
      mapping and holds no line that is exactly `---`. */
  ghost predicate Faithful(load: Loader, dump: Entries -> string) {
    forall fm: Entries {:trigger dump(fm)} ::
      load(Trim(dump(fm))) == Loaded(Mapping(fm)) && !HasInnerFenceLine(Trim(dump(fm)))
  }

  predicate IsMdx(n: Node) {
    n.File? && EndsWith(n.name, ".mdx")
  }

  function ReadDoc(load: Loader, name: string, text: string): DocFile {
    var p := ParseStrict(load, text);
    DocFile(name, p.frontMatter, p.body)
  }

  /** The `.mdx` regular files of one listing, read and split, in listing order. */
  function MdxFiles(load: Loader, entries: seq<Node>): (r: seq<DocFile>)
    ensures |r| <= |entries|
    ensures forall d :: d in r ==> EndsWith(d.fileName, ".mdx")
  {
    if entries == [] then []
    else
      var rest := MdxFiles(load, entries[1..]);
      if IsMdx(entries[0]) then [ReadDoc(load, entries[0].name, entries[0].text)] + rest else rest
  }

  /** Exactly the `.mdx` regular files of the listing are read. */
  lemma {:induction false} MdxFilesMembers(load: Loader, entries: seq<Node>)
    ensures forall i :: 0 <= i < |entries| && IsMdx(entries[i]) ==>
              ReadDoc(load, entries[i].name, entries[i].text) in MdxFiles(load, entries)
    ensures forall d :: d in MdxFiles(load, entries) ==>
              exists i :: 0 <= i < |entries| && IsMdx(entries[i]) && d == ReadDoc(load, entries[i].name, entries[i].text)
  {
    if entries != [] {
      MdxFilesMembers(load, entries[1..]);
      assert forall i :: 1 <= i < |entries| ==> entries[i] == entries[1..][i - 1];
    }
  }

  predicate UniqueFileNames(files: seq<DocFile>) {
    forall i, j :: 0 <= i < j < |files| ==> files[i].fileName != files[j].fileName
  }

  /** Distinct names in a directory give distinct names among its pages. */
  lemma {:induction false} MdxFilesUnique(load: Loader, entries: seq<Node>)
    requires UniqueNames(entries)
    ensures UniqueFileNames(MdxFiles(load, entries))
  {
    if entries != [] {
      var rest := MdxFiles(load, entries[1..]);
      assert UniqueNames(entries[1..]) by {
        forall i, j | 0 <= i < j < |entries[1..]| ensures entries[1..][i].name != entries[1..][j].name {
          assert entries[1..][i] == entries[i + 1] && entries[1..][j] == entries[j + 1];
        }
      }
      MdxFilesUnique(load, entries[1..]);
      MdxFilesMembers(load, entries[1..]);
      if IsMdx(entries[0]) {
        var r := MdxFiles(load, entries);
        assert r == [ReadDoc(load, entries[0].name, entries[0].text)] + rest;
        forall j | 1 <= j < |r| ensures r[0].fileName != r[j].fileName {
          assert r[j] in rest;
          var i :| 0 <= i < |entries[1..]| && IsMdx(entries[1..][i])
                   && r[j] == ReadDoc(load, entries[1..][i].name, entries[1..][i].text);
          assert entries[1..][i] == entries[i + 1];
        }
      }
    }
  }

  /** A page's sort key: positioned pages carry their `sidebar_position` as a number. */
  datatype Position = Unpositioned | At(n: int)

  function PositionOf(d: DocFile): Position {
    match Get(d.frontMatter, SidebarPosition)
    case None => Unpositioned
    case Some(v) => At(ToNumber(v))
  }

  /** The comparator of `sortFiles`, read as "a sorts no later than b". */
  predicate PageLe(nameLe: (string, string) -> bool, a: DocFile, b: DocFile) {
    match (PositionOf(a), PositionOf(b))
    case (At(x), At(y)) => x < y || (x == y && nameLe(a.fileName, b.fileName))
    case (At(_), Unpositioned) => true
    case (Unpositioned, At(_)) => false
    case (Unpositioned, Unpositioned) => nameLe(a.fileName, b.fileName)
  }

  /** The comparator looks only at positions and names. */
  lemma PageLeByKey(nameLe: (string, string) -> bool, a: DocFile, b: DocFile, c: DocFile, d: DocFile)
    requires PositionOf(a) == PositionOf(c) && a.fileName == c.fileName
    requires PositionOf(b) == PositionOf(d) && b.fileName == d.fileName
    ensures PageLe(nameLe, a, b) == PageLe(nameLe, c, d)
  {
  }

  function PageOrder(nameLe: (string, string) -> bool): (DocFile, DocFile) -> bool {
    (a: DocFile, b: DocFile) => PageLe(nameLe, a, b)
  }

  /** `sortFiles`: a stable sort by the page comparator. */
  function SortFiles(nameLe: (string, string) -> bool, files: seq<DocFile>): (r: seq<DocFile>)
    ensures multiset(r) == multiset(files)
  {
    InsertionSort(PageOrder(nameLe), files)
  }

  lemma PageOrderTotal(nameLe: (string, string) -> bool)
    requires TotalOrder(nameLe)
    ensures TotalPreorder(PageOrder(nameLe))
  {
  }

  /** The order `sortFiles` produces: positioned pages before unpositioned ones, positioned pages
      by ascending position, and pages with the same key by file name. */
  lemma SortFilesOrder(nameLe: (string, string) -> bool, files: seq<DocFile>)
    requires TotalOrder(nameLe)
    ensures var r := SortFiles(nameLe, files);
      && multiset(r) == multiset(files)
      && (forall i, j :: 0 <= i < j < |r| && PositionOf(r[i]).Unpositioned? ==> PositionOf(r[j]).Unpositioned?)
      && (forall i, j :: 0 <= i < j < |r| && PositionOf(r[i]).At? && PositionOf(r[j]).At? ==>
            PositionOf(r[i]).n <= PositionOf(r[j]).n)
      && (forall i, j :: 0 <= i < j < |r| && PositionOf(r[i]) == PositionOf(r[j]) ==>
            nameLe(r[i].fileName, r[j].fileName))
  {
    PageOrderTotal(nameLe);
    InsertionSortSorted(PageOrder(nameLe), files);
    var r := SortFiles(nameLe, files);
    assert forall i, j :: 0 <= i < j < |r| ==> PageLe(nameLe, r[i], r[j]);
  }

  /** Only pages with the same name tie. */
  lemma PageTie(nameLe: (string, string) -> bool, x: DocFile, y: DocFile)
    requires TotalOrder(nameLe) && PageLe(nameLe, x, y) && PageLe(nameLe, y, x)
    ensures x.fileName == y.fileName
  {
  }

  lemma UniqueFileNamesSame(a: seq<DocFile>, x: DocFile, y: DocFile)
    requires UniqueFileNames(a) && x in a && y in a && x.fileName == y.fileName
    ensures x == y
  {
    var i :| 0 <= i < |a| && a[i] == x;
    var j :| 0 <= j < |a| && a[j] == y;
    assert !(i < j) && !(j < i);
  }

  /** With distinct file names the order does not depend on the listing order. */
  lemma SortFilesCanonical(nameLe: (string, string) -> bool, a: seq<DocFile>, b: seq<DocFile>)
    requires TotalOrder(nameLe)
    requires multiset(a) == multiset(b) && UniqueFileNames(a)
    ensures SortFiles(nameLe, a) == SortFiles(nameLe, b)
  {
    var le := PageOrder(nameLe);
    PageOrderTotal(nameLe);
    InsertionSortSorted(le, a);
    InsertionSortSorted(le, b);
    var ra, rb := SortFiles(nameLe, a), SortFiles(nameLe, b);
    forall x, y | x in ra && y in ra && le(x, y) && le(y, x) ensures x == y {
      PageTie(nameLe, x, y);
      assert x in multiset(a) && y in multiset(a);
      UniqueFileNamesSame(a, x, y);
    }
    SortedUnique(le, ra, rb);
  }

  lemma UniqueFileNamesPermutation(a: seq<DocFile>, b: seq<DocFile>)
    requires multiset(a) == multiset(b) && UniqueFileNames(a)
    ensures UniqueFileNames(b)
  {
    assert Distinct(a);
    DistinctPermutation(a, b);
    forall i, j | 0 <= i < j < |b| ensures b[i].fileName != b[j].fileName {
      assert b[i] != b[j];
      assert b[i] in multiset(a) && b[j] in multiset(a);
      var p :| 0 <= p < |a| && a[p] == b[i];
      var q :| 0 <= q < |a| && a[q] == b[j];
    }
  }

  /** The outcome of linking one page: the page as it should be, and whether it differs. */
  datatype Linked = Linked(file: DocFile, changed: bool)

  /** One side of the linking: a page at that end of the chain gets a null marker unless it already
      has one; a page not at that end loses a null marker it carries. */
  function MarkEnd(fm: Entries, key: string, atEnd: bool, original: Option<Value>): (Entries, bool) {
    if atEnd then
      if original != Some(Null) then (Assign(fm, key, Null), true) else (fm, false)
    else if original == Some(Null) then (Delete(fm, key), true)
    else (fm, false)
  }

  /** The loop body of `processDirectory` for the page at one index. */
  function Relink(f: DocFile, isFirst: bool, isLast: bool): (r: Linked)
    ensures r.file.fileName == f.fileName && r.file.body == f.body
    ensures isFirst ==> Get(r.file.frontMatter, Prev) == Some(Null)
    ensures isLast ==> Get(r.file.frontMatter, Next) == Some(Null)
    ensures !isFirst ==> Get(r.file.frontMatter, Prev) != Some(Null)
    ensures !isLast ==> Get(r.file.frontMatter, Next) != Some(Null)
    ensures !isFirst && Get(f.frontMatter, Prev) == Some(Null) ==> Get(r.file.frontMatter, Prev).None?
    ensures !isLast && Get(f.frontMatter, Next) == Some(Null) ==> Get(r.file.frontMatter, Next).None?
    ensures !isFirst && Get(f.frontMatter, Prev) != Some(Null) ==>
              Get(r.file.frontMatter, Prev) == Get(f.frontMatter, Prev)
    ensures !isLast && Get(f.frontMatter, Next) != Some(Null) ==>
              Get(r.file.frontMatter, Next) == Get(f.frontMatter, Next)
    ensures forall k :: k != Prev && k != Next ==> Get(r.file.frontMatter, k) == Get(f.frontMatter, k)
    ensures r.changed <==> r.file.frontMatter != f.frontMatter
    ensures r.changed <==> (Get(r.file.frontMatter, Prev) != Get(f.frontMatter, Prev)
                            || Get(r.file.frontMatter, Next) != Get(f.frontMatter, Next))
    ensures UniqueKeys(f.frontMatter) ==> UniqueKeys(r.file.frontMatter)
  {
    var fm := f.frontMatter;
    var (fm1, c1) := MarkEnd(fm, Prev, isFirst, Get(fm, Prev));
    var (fm2, c2) := MarkEnd(fm1, Next, isLast, Get(fm, Next));
    assert Get(fm1, Next) == Get(fm, Next);
    assert Get(fm2, Prev) == Get(fm1, Prev);
    assert UniqueKeys(fm) ==> UniqueKeys(fm2) by {
      if UniqueKeys(fm) {
        if isFirst { AssignKeepsKeysUnique(fm, Prev, Null); } else { DeleteKeepsKeysUnique(fm, Prev); }
        if isLast { AssignKeepsKeysUnique(fm1, Next, Null); } else { DeleteKeepsKeysUnique(fm1, Next); }
      }
    }
    Linked(DocFile(f.fileName, fm2, f.body), c1 || c2)
  }

  /** Linking is settled after one pass: relinking a linked page at the same place changes nothing. */
  lemma RelinkSettled(f: DocFile, isFirst: bool, isLast: bool)
    ensures Relink(Relink(f, isFirst, isLast).file, isFirst, isLast) == Linked(Relink(f, isFirst, isLast).file, false)
  {
  }

  /** Linking touches neither the name nor the position a page sorts by. */
  lemma RelinkKeepsKey(f: DocFile, isFirst: bool, isLast: bool)
    ensures PositionOf(Relink(f, isFirst, isLast).file) == PositionOf(f)
    ensures Relink(f, isFirst, isLast).file.fileName == f.fileName
  {
    var r := Relink(f, isFirst, isLast);
    assert SidebarPosition != Prev && SidebarPosition != Next;
    assert Get(r.file.frontMatter, SidebarPosition) == Get(f.frontMatter, SidebarPosition);
  }

  /** Every page of the sorted order, linked at its index. */
  function LinkAll(sorted: seq<DocFile>): (r: seq<Linked>)
    ensures |r| == |sorted|
    ensures forall i :: 0 <= i < |r| ==> r[i].file.fileName == sorted[i].fileName && r[i].file.body == sorted[i].body
    ensures |r| > 0 ==> Get(r[0].file.frontMatter, Prev) == Some(Null)
    ensures |r| > 0 ==> Get(r[|r| - 1].file.frontMatter, Next) == Some(Null)
    ensures forall i :: 0 < i < |r| ==> Get(r[i].file.frontMatter, Prev) != Some(Null)
    ensures forall i :: 0 <= i < |r| - 1 ==> Get(r[i].file.frontMatter, Next) != Some(Null)
    ensures forall i :: 0 < i < |r| ==>
              Get(r[i].file.frontMatter, Prev)
                == if Get(sorted[i].frontMatter, Prev) == Some(Null) then None else Get(sorted[i].frontMatter, Prev)
    ensures forall i :: 0 <= i < |r| - 1 ==>
              Get(r[i].file.frontMatter, Next)
                == if Get(sorted[i].frontMatter, Next) == Some(Null) then None else Get(sorted[i].frontMatter, Next)
  {
    seq(|sorted|, i requires 0 <= i < |sorted| => Relink(sorted[i], i == 0, i == |sorted| - 1))
  }

  lemma LinkAllAt(sorted: seq<DocFile>, i: nat)
    requires i < |sorted|
    ensures LinkAll(sorted)[i] == Relink(sorted[i], i == 0, i == |sorted| - 1)
  {
  }

  function WriteOf(dump: Entries -> string, l: Linked): FileWrite {
    FileWrite(l.file.fileName, WriteStrict(dump, l.file.frontMatter, l.file.body))
  }

  /** The writes of the changed pages, in sorted order; unchanged pages are not written. */
  function WritesOf(dump: Entries -> string, linked: seq<Linked>): (r: seq<FileWrite>)
    ensures |r| <= |linked|
    ensures (forall i :: 0 <= i < |linked| ==> !linked[i].changed) ==> r == []
  {
    Collect((l: Linked) => WriteOf(dump, l), (l: Linked) => l.changed, linked)
  }

  /** Exactly the changed pages are written. */
  lemma WritesOfMembers(dump: Entries -> string, linked: seq<Linked>)
    ensures forall w :: w in WritesOf(dump, linked) ==>
              exists i :: 0 <= i < |linked| && linked[i].changed && w == WriteOf(dump, linked[i])
    ensures forall i :: 0 <= i < |linked| && linked[i].changed ==> WriteOf(dump, linked[i]) in WritesOf(dump, linked)
  {
    CollectMembers((l: Linked) => WriteOf(dump, l), (l: Linked) => l.changed, linked);
  }

  /** `processDirectory`: the writes one directory listing gives rise to. */
  function ProcessDirectory(env: Env, entries: seq<Node>): (r: seq<FileWrite>)
    ensures forall w :: w in r ==> EndsWith(w.name, ".mdx")
  {
    var files := MdxFiles(env.load, entries);
    if |files| == 0 then []
    else
      var linked := LinkAll(SortFiles(env.nameLe, files));
      var r := WritesOf(env.dump, linked);
      WritesOfMembers(env.dump, linked);
      assert forall w :: w in r ==> exists d :: d in files && w.name == d.fileName by {
        forall w | w in r ensures exists d :: d in files && w.name == d.fileName {
          var i :| 0 <= i < |linked| && linked[i].changed && w == WriteOf(env.dump, linked[i]);
          assert SortFiles(env.nameLe, files)[i] in multiset(files);
        }
      }
      r
  }

  /** What a directory's writes mean: the text of page `d` after the pass is the page rewritten
      with the linked front matter and the same body when linking changed it, and untouched
      otherwise, where the page is linked at its place in the sorted order. */
  lemma {:induction false} ProcessDirectoryWrites(env: Env, entries: seq<Node>, i: nat)
    requires UniqueNames(entries) && TotalOrder(env.nameLe)
    requires var files := MdxFiles(env.load, entries); i < |files|
    ensures var sorted := SortFiles(env.nameLe, MdxFiles(env.load, entries));
      var l := Relink(sorted[i], i == 0, i == |sorted| - 1);
      WrittenText(ProcessDirectory(env, entries), sorted[i].fileName)
        == if l.changed then Some(WriteStrict(env.dump, l.file.frontMatter, sorted[i].body)) else None
  {
    var files := MdxFiles(env.load, entries);
    var sorted := SortFiles(env.nameLe, files);
    var linked := LinkAll(sorted);
    MdxFilesUnique(env.load, entries);
    UniqueFileNamesPermutation(files, sorted);
    assert linked[i] == Relink(sorted[i], i == 0, i == |sorted| - 1);
    WrittenTextOfLinked(env.dump, linked, i);
  }

  /** Among pages with distinct names, a page's write is found by its name. */
  lemma WrittenTextOfLinked(dump: Entries -> string, linked: seq<Linked>, i: nat)
    requires i < |linked|
    requires forall a, b :: 0 <= a < b < |linked| ==> linked[a].file.fileName != linked[b].file.fileName
    ensures WrittenText(WritesOf(dump, linked), linked[i].file.fileName)
              == if linked[i].changed then Some(WriteOf(dump, linked[i]).text) else None
  {
    var writes := WritesOf(dump, linked);
    var n := linked[i].file.fileName;
    WritesOfMembers(dump, linked);
    if linked[i].changed {
      assert WriteOf(dump, linked[i]) in writes;
    }
    match WrittenText(writes, n)
    case None =>
    case Some(t) =>
      assert FileWrite(n, t) in writes;
      var k :| 0 <= k < |linked| && linked[k].changed && FileWrite(n, t) == WriteOf(dump, linked[k]);
      assert linked[k].file.fileName == n;
      assert k == i;
  }

  /** Reading a listing after writes that turn every page into its image under `g`. */
  lemma {:induction false} MdxFilesAfterWrites(load: Loader, entries: seq<Node>, writes: seq<FileWrite>, g: DocFile -> DocFile)
    requires forall i :: 0 <= i < |entries| && IsMdx(entries[i]) ==>
               ReadDoc(load, entries[i].name, WrittenText(writes, entries[i].name).GetOr(entries[i].text))
                 == g(ReadDoc(load, entries[i].name, entries[i].text))
    ensures MdxFiles(load, ApplyWrites(entries, writes)) == MapSeq(g, MdxFiles(load, entries))
  {
    if entries != [] {
      var after := ApplyWrites(entries, writes);
      assert ApplyWrites(entries[1..], writes) == after[1..];
      forall i | 0 <= i < |entries[1..]| && IsMdx(entries[1..][i])
        ensures ReadDoc(load, entries[1..][i].name, WrittenText(writes, entries[1..][i].name).GetOr(entries[1..][i].text))
                  == g(ReadDoc(load, entries[1..][i].name, entries[1..][i].text))
      {
        assert entries[1..][i] == entries[i + 1];
      }
      MdxFilesAfterWrites(load, entries[1..], writes, g);
      var rest := MdxFiles(load, entries[1..]);
      if IsMdx(entries[0]) {
        assert MapSeq(g, [ReadDoc(load, entries[0].name, entries[0].text)] + rest)
            == [g(ReadDoc(load, entries[0].name, entries[0].text))] + MapSeq(g, rest);
      } else {
        assert !IsMdx(after[0]);
      }
    }
  }

  /** The linked form of any page of `sorted`, found by its name. */
  function Settle(sorted: seq<DocFile>): DocFile -> DocFile
    requires |sorted| > 0
  {
    var first, last := sorted[0].fileName, sorted[|sorted| - 1].fileName;
    (d: DocFile) => SettleDoc(first, last, d)
  }

  function SettleDoc(first: string, last: string, d: DocFile): DocFile {
    Relink(d, d.fileName == first, d.fileName == last).file
  }

  lemma SettleAt(sorted: seq<DocFile>, i: nat)
    requires UniqueFileNames(sorted) && i < |sorted|
    ensures Settle(sorted)(sorted[i]) == Relink(sorted[i], i == 0, i == |sorted| - 1).file
  {
    assert (sorted[i].fileName == sorted[0].fileName) == (i == 0);
    assert (sorted[i].fileName == sorted[|sorted| - 1].fileName) == (i == |sorted| - 1);
  }

  /** After the pass, every page reads back as its linked form. */
  lemma ReadsSettled(env: Env, entries: seq<Node>)
    requires UniqueNames(entries) && TotalOrder(env.nameLe) && Faithful(env.load, env.dump)
    requires |MdxFiles(env.load, entries)| > 0
    ensures var files := MdxFiles(env.load, entries);
      MdxFiles(env.load, ApplyWrites(entries, ProcessDirectory(env, entries)))
        == MapSeq(Settle(SortFiles(env.nameLe, files)), files)
  {
    var files := MdxFiles(env.load, entries);
    var writes := ProcessDirectory(env, entries);
    var sorted := SortFiles(env.nameLe, files);
    var g := Settle(sorted);
    MdxFilesUnique(env.load, entries);
    MdxFilesMembers(env.load, entries);
    UniqueFileNamesPermutation(files, sorted);
    forall i | 0 <= i < |entries| && IsMdx(entries[i])
      ensures ReadDoc(env.load, entries[i].name, WrittenText(writes, entries[i].name).GetOr(entries[i].text))
                == g(ReadDoc(env.load, entries[i].name, entries[i].text))
    {
      var d := ReadDoc(env.load, entries[i].name, entries[i].text);
      assert d in multiset(sorted);
      var k :| 0 <= k < |sorted| && sorted[k] == d;
      ProcessDirectoryWrites(env, entries, k);
      SettleAt(sorted, k);
      var l := Relink(d, k == 0, k == |sorted| - 1);
      if l.changed {
        WriteStrictRoundTrip(env.load, env.dump, l.file.frontMatter, d.body);
      }
    }
    MdxFilesAfterWrites(env.load, entries, writes, g);
  }

  /** Linking leaves what the sort looks at alone, so the linked pages sort the same way. */
  lemma SortSettled(nameLe: (string, string) -> bool, files: seq<DocFile>)
    requires |files| > 0
    ensures var sorted := SortFiles(nameLe, files);
      SortFiles(nameLe, MapSeq(Settle(sorted), files)) == MapSeq(Settle(sorted), sorted)
  {
    var g := Settle(SortFiles(nameLe, files));
    var le := PageOrder(nameLe);
    forall x, y | x in files && y in files ensures le(g(x), g(y)) == le(x, y) {
      var sorted := SortFiles(nameLe, files);
      var a, b := sorted[0].fileName, sorted[|sorted| - 1].fileName;
      assert g(x) == SettleDoc(a, b, x);
      assert g(y) == SettleDoc(a, b, y);
      RelinkKeepsKey(x, x.fileName == a, x.fileName == b);
      RelinkKeepsKey(y, y.fileName == a, y.fileName == b);
      PageLeByKey(nameLe, g(x), g(y), x, y);
    }
    InsertionSortMap(le, g, files);
  }

  /** Relinking the linked pages in the same order changes none of them. */
  lemma LinkSettledQuiet(sorted: seq<DocFile>)
    requires |sorted| > 0 && UniqueFileNames(sorted)
    ensures forall i :: 0 <= i < |sorted| ==> !LinkAll(MapSeq(Settle(sorted), sorted))[i].changed
  {
    var m := MapSeq(Settle(sorted), sorted);
    forall i | 0 <= i < |sorted| ensures !LinkAll(m)[i].changed {
      var f, a, b := sorted[i], i == 0, i == |sorted| - 1;
      SettleAt(sorted, i);
      assert m[i] == Relink(f, a, b).file;
      LinkAllAt(m, i);
      RelinkSettled(f, a, b);
    }
  }

  /** Running the linker on a directory it has already fixed writes nothing. */
  lemma ProcessDirectoryIdempotent(env: Env, entries: seq<Node>)
    requires UniqueNames(entries) && TotalOrder(env.nameLe) && Faithful(env.load, env.dump)
    ensures ProcessDirectory(env, ApplyWrites(entries, ProcessDirectory(env, entries))) == []
  {
    var files := MdxFiles(env.load, entries);
    var writes := ProcessDirectory(env, entries);
    if |files| == 0 {
      assert ApplyWrites(entries, writes) == entries;
    } else {
      var sorted := SortFiles(env.nameLe, files);
      MdxFilesUnique(env.load, entries);
      UniqueFileNamesPermutation(files, sorted);
      ReadsSettled(env, entries);
      SortSettled(env.nameLe, files);
      LinkSettledQuiet(sorted);
    }
  }

  /** A subdirectory the traversal does not enter: hidden (`.`) or private (`_`). */
  predicate Skipped(name: string) {
    StartsWith(name, ".") || StartsWith(name, "_")
  }

  /** A write addressed by the chain of subdirectory names below the directory traversed. */
  datatype PathWrite = PathWrite(dirs: seq<string>, name: string, text: string)

  /** The same write, seen from one directory further down. */
  function Below(w: PathWrite): PathWrite
    requires w.dirs != []
  {
    w.(dirs := w.dirs[1..])
  }

  function Here(writes: seq<FileWrite>): (r: seq<PathWrite>)
    ensures forall w :: w in r <==> w.dirs == [] && FileWrite(w.name, w.text) in writes
  {
    var r := seq(|writes|, i requires 0 <= i < |writes| => PathWrite([], writes[i].name, writes[i].text));
    assert forall i :: 0 <= i < |writes| ==> r[i] == PathWrite([], writes[i].name, writes[i].text);
    r
  }

  function Inside(name: string, writes: seq<PathWrite>): (r: seq<PathWrite>)
    ensures forall w :: w in r <==> w.dirs != [] && w.dirs[0] == name && Below(w) in writes
  {
    var r := seq(|writes|, i requires 0 <= i < |writes| => writes[i].(dirs := [name] + writes[i].dirs));
    assert forall i :: 0 <= i < |writes| ==> Below(r[i]) == writes[i];
    assert forall w: PathWrite :: w.dirs != [] && w.dirs[0] == name && Below(w) in writes ==> w in r by {
      forall w: PathWrite | w.dirs != [] && w.dirs[0] == name && Below(w) in writes ensures w in r {
        var i :| 0 <= i < |writes| && writes[i] == Below(w);
        assert w.dirs == [name] + w.dirs[1..];
        assert r[i] == w;
      }
    }
    r
  }

  /** `traverseDirectories`: the directory's own pass, then every subdirectory that is not
      skipped, in listing order. */
  function Traverse(env: Env, dir: Node): seq<PathWrite>
    decreases dir, 1
  {
    match dir
    case File(_, _) => []
    case Dir(_, entries) => Here(ProcessDirectory(env, entries)) + TraverseEntries(env, dir, 0)
  }

  function TraverseEntries(env: Env, dir: Node, i: nat): seq<PathWrite>
    requires dir.Dir? && i <= |dir.entries|
    decreases dir, 0, |dir.entries| - i
  {
    if i == |dir.entries| then []
    else
      var e := dir.entries[i];
      (if e.Dir? && !Skipped(e.name) then Inside(e.name, Traverse(env, e)) else [])
        + TraverseEntries(env, dir, i + 1)
  }

  /** The script's entry point: nothing happens when the documentation root is missing. */
  function FixPagination(env: Env, docs: Option<Node>): seq<PathWrite> {
    match docs
    case None => []
    case Some(root) => Traverse(env, root)
  }

  /** `listing` is the listing of a directory the traversal enters by following `dirs` down from
      `dir`, never through a skipped name. */
  ghost predicate Reaches(dir: Node, dirs: seq<string>, listing: seq<Node>)
    decreases dirs
  {
    && dir.Dir?
    && if dirs == [] then listing == dir.entries
       else
         && !Skipped(dirs[0])
         && exists e :: e in dir.entries && e.Dir? && e.name == dirs[0] && Reaches(e, dirs[1..], listing)
  }

  /** The write `w` is one the pass over a directory the traversal reaches gives rise to. */
  ghost predicate Produces(env: Env, dir: Node, w: PathWrite) {
    exists listing :: Reaches(dir, w.dirs, listing) && FileWrite(w.name, w.text) in ProcessDirectory(env, listing)
  }

  /** One step of `Produces`: at the directory itself, or through one entered subdirectory. */
  lemma ProducesStep(env: Env, dir: Node, w: PathWrite)
    requires dir.Dir?
    ensures w.dirs == [] ==> (Produces(env, dir, w) <==> FileWrite(w.name, w.text) in ProcessDirectory(env, dir.entries))
    ensures w.dirs != [] ==> (Produces(env, dir, w) <==>
              && !Skipped(w.dirs[0])
              && exists e :: e in dir.entries && e.Dir? && e.name == w.dirs[0] && Produces(env, e, Below(w)))
  {
    if w.dirs != [] {
      if Produces(env, dir, w) {
        var listing :| Reaches(dir, w.dirs, listing) && FileWrite(w.name, w.text) in ProcessDirectory(env, listing);
        var e :| e in dir.entries && e.Dir? && e.name == w.dirs[0] && Reaches(e, w.dirs[1..], listing);
        assert Reaches(e, Below(w).dirs, listing);
      }
      if !Skipped(w.dirs[0]) && exists e :: e in dir.entries && e.Dir? && e.name == w.dirs[0] && Produces(env, e, Below(w)) {
        var e :| e in dir.entries && e.Dir? && e.name == w.dirs[0] && Produces(env, e, Below(w));
        var listing :| Reaches(e, w.dirs[1..], listing) && FileWrite(w.name, w.text) in ProcessDirectory(env, listing);
        assert Reaches(dir, w.dirs, listing);
      }
    } else {
      if FileWrite(w.name, w.text) in ProcessDirectory(env, dir.entries) {
        assert Reaches(dir, w.dirs, dir.entries);
      }
    }
  }

  /** The traversal writes exactly what the per-directory passes over the reachable directories
      write, each at its own directory. */
  lemma {:induction false} TraverseExactly(env: Env, dir: Node, w: PathWrite)
    ensures w in Traverse(env, dir) <==> Produces(env, dir, w)
    decreases dir, 1
  {
    if dir.Dir? {
      var own := Here(ProcessDirectory(env, dir.entries));
      var sub := TraverseEntries(env, dir, 0);
      assert Traverse(env, dir) == own + sub;
      assert w in Traverse(env, dir) <==> w in own || w in sub;
      TraverseEntriesExactly(env, dir, 0, w);
      ProducesStep(env, dir, w);
      if w.dirs != [] {
        assert ProducesFrom(env, dir, 0, w)
           <==> (!Skipped(w.dirs[0])
                 && exists e :: e in dir.entries && e.Dir? && e.name == w.dirs[0] && Produces(env, e, Below(w)));
      }
    }
  }

  /** `w` is produced below one of the entries of `dir` from index `i` on. */
  ghost predicate ProducesFrom(env: Env, dir: Node, i: nat, w: PathWrite)
    requires dir.Dir?
  {
    && w.dirs != []
    && !Skipped(w.dirs[0])
    && exists k :: i <= k < |dir.entries| && dir.entries[k].Dir? && dir.entries[k].name == w.dirs[0]
                   && Produces(env, dir.entries[k], Below(w))
  }

  lemma ProducesFromStep(env: Env, dir: Node, i: nat, w: PathWrite)
    requires dir.Dir? && i < |dir.entries|
    ensures ProducesFrom(env, dir, i, w) <==>
      || (var e := dir.entries[i];
          e.Dir? && !Skipped(e.name) && w.dirs != [] && w.dirs[0] == e.name && Produces(env, e, Below(w)))
      || ProducesFrom(env, dir, i + 1, w)
  {
    var e := dir.entries[i];
    if ProducesFrom(env, dir, i, w) {
      var k :| i <= k < |dir.entries| && dir.entries[k].Dir? && dir.entries[k].name == w.dirs[0]
               && Produces(env, dir.entries[k], Below(w));
      if k > i {
        assert ProducesFrom(env, dir, i + 1, w);
      }
    }
    if e.Dir? && !Skipped(e.name) && w.dirs != [] && w.dirs[0] == e.name && Produces(env, e, Below(w)) {
      assert ProducesFrom(env, dir, i, w);
    }
    if ProducesFrom(env, dir, i + 1, w) {
      var k :| i + 1 <= k < |dir.entries| && dir.entries[k].Dir? && dir.entries[k].name == w.dirs[0]
               && Produces(env, dir.entries[k], Below(w));
      assert ProducesFrom(env, dir, i, w);
    }
  }

  lemma {:induction false} TraverseEntriesExactly(env: Env, dir: Node, i: nat, w: PathWrite)
    requires dir.Dir? && i <= |dir.entries|
    ensures w in TraverseEntries(env, dir, i) <==> ProducesFrom(env, dir, i, w)
    decreases dir, 0, |dir.entries| - i
  {
    if i < |dir.entries| {
      var e := dir.entries[i];
      var head := if e.Dir? && !Skipped(e.name) then Inside(e.name, Traverse(env, e)) else [];
      var tail := TraverseEntries(env, dir, i + 1);
      assert TraverseEntries(env, dir, i) == head + tail;
      assert w in TraverseEntries(env, dir, i) <==> w in head || w in tail;
      TraverseEntriesExactly(env, dir, i + 1, w);
      ProducesFromStep(env, dir, i, w);
      if e.Dir? && !Skipped(e.name) && w.dirs != [] {
        TraverseExactly(env, e, Below(w));
      }
    }
  }

  /** Every write of a run lands on an `.mdx` file, in a directory whose path below the root
      has no skipped name. */
  lemma FixPaginationSkips(env: Env, docs: Option<Node>, w: PathWrite)
    ensures w in FixPagination(env, docs) ==>
      && EndsWith(w.name, ".mdx")
      && forall k :: 0 <= k < |w.dirs| ==> !Skipped(w.dirs[k])
  {
    if w in FixPagination(env, docs) {
      TraverseExactly(env, docs.value, w);
      var listing :| Reaches(docs.value, w.dirs, listing) && FileWrite(w.name, w.text) in ProcessDirectory(env, listing);
      ReachesUnskipped(docs.value, w.dirs, listing);
    }
  }

  lemma {:induction false} ReachesUnskipped(dir: Node, dirs: seq<string>, listing: seq<Node>)
    requires Reaches(dir, dirs, listing)
    ensures forall k :: 0 <= k < |dirs| ==> !Skipped(dirs[k])
    decreases dirs
  {
    if dirs != [] {
      var e :| e in dir.entries && e.Dir? && e.name == dirs[0] && Reaches(e, dirs[1..], listing);
      ReachesUnskipped(e, dirs[1..], listing);
      assert forall k :: 1 <= k < |dirs| ==> dirs[k] == dirs[1..][k - 1];
    }
  }

  /** Character order on strings: a concrete file-name order for examples. */
  predicate OrdinalLe(a: string, b: string) {
    if a == [] then true
    else if b == [] then false
    else if a[0] != b[0] then a[0] < b[0]
    else OrdinalLe(a[1..], b[1..])
  }

  lemma {:induction false} OrdinalLeTotal(a: string, b: string)
    ensures OrdinalLe(a, b) || OrdinalLe(b, a)
    ensures OrdinalLe(a, b) && OrdinalLe(b, a) ==> a == b
  {
    if a != [] && b != [] && a[0] == b[0] {
      OrdinalLeTotal(a[1..], b[1..]);
      assert a == [a[0]] + a[1..] && b == [b[0]] + b[1..];
    }
  }

  lemma {:induction false} OrdinalLeTransitive(a: string, b: string, c: string)
    requires OrdinalLe(a, b) && OrdinalLe(b, c)
    ensures OrdinalLe(a, c)
  {
    if a != [] && b != [] && c != [] && a[0] == b[0] && b[0] == c[0] {
      OrdinalLeTransitive(a[1..], b[1..], c[1..]);
    }
  }

  lemma OrdinalLeTotalOrder()
    ensures TotalOrder((a: string, b: string) => OrdinalLe(a, b))
  {
    forall a: string, b: string ensures OrdinalLe(a, b) || OrdinalLe(b, a) {
      OrdinalLeTotal(a, b);
    }
    forall a: string, b: string | OrdinalLe(a, b) && OrdinalLe(b, a) ensures a == b {
      OrdinalLeTotal(a, b);
    }
    forall a: string, b: string, c: string | OrdinalLe(a, b) && OrdinalLe(b, c) ensures OrdinalLe(a, c) {
      OrdinalLeTransitive(a, b, c);
    }
  }

  function ExamplePage(name: string, position: Option<int>): DocFile {
    DocFile(name, if position.Some? then [(SidebarPosition, Num(position.value))] else [], "")
  }

  lemma ExamplePagesSorted()
    ensures SortedBy(PageOrder((x: string, y: string) => OrdinalLe(x, y)),
      [ExamplePage("a.mdx", Some(1)), ExamplePage("b.mdx", Some(1)), ExamplePage("d.mdx", Some(3)), ExamplePage("c.mdx", None)])
  {
    var a, b := ExamplePage("a.mdx", Some(1)), ExamplePage("b.mdx", Some(1));
    var c, d := ExamplePage("c.mdx", None), ExamplePage("d.mdx", Some(3));
    var le := PageOrder((x: string, y: string) => OrdinalLe(x, y));
    assert PositionOf(a) == At(1) && PositionOf(b) == At(1);
    assert PositionOf(c) == Unpositioned && PositionOf(d) == At(3);
    assert OrdinalLe("a.mdx", "b.mdx");
    assert le(a, b) && le(a, d) && le(a, c);
    assert le(b, d) && le(b, c) && le(d, c);
    var s := [a, b, d, c];
    forall i, j | 0 <= i < j < 4 ensures le(s[i], s[j]) {
    }
  }

  /** Four pages listed as c, d, b, a, where a and b sit at position 1, d at 3 and c has no
      position, are ordered a, b, d, c: equal positions fall back to the file name, and the
      unpositioned page comes last. */
  lemma SortFilesExample()
    ensures var a, b := ExamplePage("a.mdx", Some(1)), ExamplePage("b.mdx", Some(1));
      var c, d := ExamplePage("c.mdx", None), ExamplePage("d.mdx", Some(3));
      SortFiles((x: string, y: string) => OrdinalLe(x, y), [c, d, b, a]) == [a, b, d, c]
  {
    var a, b := ExamplePage("a.mdx", Some(1)), ExamplePage("b.mdx", Some(1));
    var c, d := ExamplePage("c.mdx", None), ExamplePage("d.mdx", Some(3));
    var nameLe := (x: string, y: string) => OrdinalLe(x, y);
    var input, want := [c, d, b, a], [a, b, d, c];
    assert input == [c, d] + [b, a] && want == [a, b] + [d, c];
    assert multiset(input) == multiset(want);
    ExampleNamesUnique();
    OrdinalLeTotalOrder();
    SortFilesCanonical(nameLe, input, want);
    ExamplePagesSorted();
    InsertionSortOfSorted(PageOrder(nameLe), want);
  }

  lemma ExampleNamesUnique()
    ensures UniqueFileNames([ExamplePage("c.mdx", None), ExamplePage("d.mdx", Some(3)),
                             ExamplePage("b.mdx", Some(1)), ExamplePage("a.mdx", Some(1))])
  {
    var s := [ExamplePage("c.mdx", None), ExamplePage("d.mdx", Some(3)),
              ExamplePage("b.mdx", Some(1)), ExamplePage("a.mdx", Some(1))];
    assert s[0].fileName[0] == 'c' && s[1].fileName[0] == 'd';
    assert s[2].fileName[0] == 'b' && s[3].fileName[0] == 'a';
  }
}
