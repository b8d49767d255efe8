/** The file system as the scripts see it: directory listings in the order `readdirSync`
    returns them, and whole-file rewrites. */
module Files {
  import opened Wrappers
  import opened Text

  /** A directory entry: a regular file with its text, or a subdirectory with its own listing. */
  datatype Node = File(name: string, text: string) | Dir(name: string, entries: seq<Node>)

  /** A whole-file rewrite (`writeFileSync`) of the entry `name` of one directory. */
  datatype FileWrite = FileWrite(name: string, text: string)

  /** A documentation file name: it ends in `.md` or `.mdx`. */
  predicate IsDocName(name: string) {
    EndsWith(name, ".md") || EndsWith(name, ".mdx")
  }

  /** Entry names are unique within one directory. */
  predicate UniqueNames(entries: seq<Node>) {
    forall i, j :: 0 <= i < j < |entries| ==> entries[i].name != entries[j].name
  }

  /** `writes[k]` is the last write that goes to `name`. */
  predicate LastWriteAt(writes: seq<FileWrite>, k: int, name: string) {
    && 0 <= k < |writes| && writes[k].name == name
    && forall j :: k < j < |writes| ==> writes[j].name != name
  }

  /** The text the last write to `name` left, if any write went to it. */
  function WrittenText(writes: seq<FileWrite>, name: string): (r: Option<string>)
    ensures r.None? <==> forall w :: w in writes ==> w.name != name
    ensures r.Some? ==> FileWrite(name, r.value) in writes
    ensures r.Some? ==> exists k :: LastWriteAt(writes, k, name) && writes[k].text == r.value
  {
    if writes == [] then None
    else if writes[|writes| - 1].name == name then Some(writes[|writes| - 1].text)
    else
      var front := writes[..|writes| - 1];
      var r := WrittenText(front, name);
      assert writes == front + [writes[|writes| - 1]];
      if r.Some? then
        var k :| LastWriteAt(front, k, name) && front[k].text == r.value;
        assert LastWriteAt(writes, k, name) && writes[k].text == r.value;
        r
      else r
  }

  /** The listing after the writes: each written file holds its new text, everything else is as
      it was. */
  function ApplyWrites(entries: seq<Node>, writes: seq<FileWrite>): (r: seq<Node>)
    ensures |r| == |entries|
    ensures forall i :: 0 <= i < |entries| ==> r[i].name == entries[i].name
    ensures forall i :: 0 <= i < |entries| && entries[i].Dir? ==> r[i] == entries[i]
    ensures forall i :: 0 <= i < |entries| && entries[i].File? ==>
              && r[i].File?
              && ((r[i].text == entries[i].text && forall w :: w in writes ==> w.name != entries[i].name)
                  || exists k :: LastWriteAt(writes, k, entries[i].name) && r[i].text == writes[k].text)
    ensures forall i :: 0 <= i < |entries| && entries[i].File? ==>
              r[i] == File(entries[i].name, WrittenText(writes, entries[i].name).GetOr(entries[i].text))
  {
    seq(|entries|, i requires 0 <= i < |entries| =>
      match entries[i]
      case File(n, t) => File(n, WrittenText(writes, n).GetOr(t))
      case Dir(_, _) => entries[i])
  }
}
