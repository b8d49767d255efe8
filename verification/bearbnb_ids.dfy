/** The ID assigner for the bearbnb tutorial: every `.md`/`.mdx` file of one directory gets an
    `id` front-matter key derived from its file name, written back with the lenient fence layout. */
module BearbnbIds {
  import opened Wrappers
  import opened Text
  import opened FrontMatter
  import opened Fence
  import opened Files
  import opened Sorting

  const IdKey := "id"
  const IdPrefix := "bearbnb-"

  // ---------------------------------------------------------------------------------------------
  // Identifiers

  /** The extension the replace `/\.(mdx|md)$/` removes: `.mdx` or `.md` at the very end, if any. */
  function DocExtension(name: string): (ext: string)
    ensures ext == ".mdx" || ext == ".md" || ext == ""
    ensures EndsWith(name, ext)
  {
    if EndsWith(name, ".mdx") then ".mdx" else if EndsWith(name, ".md") then ".md" else ""
  }

  /** The file name without that extension. */
  function BaseName(name: string): (b: string)
    ensures name == b + DocExtension(name)
  {
    var ext := DocExtension(name);
    assert name == name[..|name| - |ext|] + name[|name| - |ext|..];
    name[..|name| - |ext|]
  }

  /** `generateIdFromFilename`. */
  function GenerateId(filename: string): string {
    IdPrefix + BaseName(filename)
  }

  /** A document name is its base name followed by `.md` or `.mdx`, and the base name can be
      anything: the ID is the prefix followed by exactly that base name. */
  lemma GenerateIdOf(x: string, ext: string)
    requires ext == ".md" || ext == ".mdx"
    ensures IsDocName(x + ext)
    ensures DocExtension(x + ext) == ext && BaseName(x + ext) == x
    ensures GenerateId(x + ext) == IdPrefix + x
  {
    var n := x + ext;
    assert n[|n| - |ext|..] == ext;
    if ext == ".md" {
      assert n[|n| - 1] == 'd';
      assert !EndsWith(n, ".mdx");
    }
    assert n[..|n| - |ext|] == x;
  }

  /** Two documents get the same ID exactly when they share a base name: `intro.md` and `intro.mdx`
      side by side collide, contrary to the promise of one distinct ID per file. */
  lemma GenerateIdCollides(a: string, b: string)
    requires IsDocName(a) && IsDocName(b)
    ensures GenerateId(a) == GenerateId(b) <==> BaseName(a) == BaseName(b)
    ensures BaseName(a) == BaseName(b) && a != b ==> DocExtension(a) != DocExtension(b)
  {
    if GenerateId(a) == GenerateId(b) {
      assert BaseName(a) == GenerateId(a)[|IdPrefix|..];
      assert BaseName(b) == GenerateId(b)[|IdPrefix|..];
    }
  }

  // ---------------------------------------------------------------------------------------------
  // Writing the front matter back

  /** Outcome of `yaml.dump`: it either throws or yields the YAML text. */
  datatype DumpResult = DumpError | Dumped(text: string)

  /** `yaml.dump` with the script's options, a foreign library call. */
  type Dumper = Entries -> DumpResult

  /** `value.replace(/"/g, '\\"')`: a backslash before every double quote, and nothing else. */
  function EscapeQuotes(s: string): (r: string)
    ensures |r| >= |s|
    ensures r == [] || r[0] != '"'
  {
    if s == [] then []
    else if s[0] == '"' then "\\\"" + EscapeQuotes(s[1..])
    else [s[0]] + EscapeQuotes(s[1..])
  }

  /** Reading `\"` back as `"`, left to right. */
  function UnescapeQuotes(t: string): string {
    if t == [] then []
    else if |t| >= 2 && t[0] == '\\' && t[1] == '"' then "\"" + UnescapeQuotes(t[2..])
    else [t[0]] + UnescapeQuotes(t[1..])
  }

  /** The fallback's escaping loses nothing: removing the added backslashes restores the value. */
  lemma {:induction false} EscapeQuotesInverse(s: string)
    ensures UnescapeQuotes(EscapeQuotes(s)) == s
  {
    if s != [] {
      var rest := EscapeQuotes(s[1..]);
      EscapeQuotesInverse(s[1..]);
      if s[0] == '"' {
        var t := "\\\"" + rest;
        assert t[2..] == rest;
      } else {
        var t := [s[0]] + rest;
        assert t[1..] == rest;
        assert !(|t| >= 2 && t[0] == '\\' && t[1] == '"');
      }
    }
  }

  /** The four-digit lower-case hexadecimal form of a code below 0x20 after `\u`. */
  function HexEscape(c: char): string
    requires c < ' '
  {
    var n := c as int;
    "\\u00" + [DigitChar(n / 16), "0123456789abcdef"[n % 16]]
  }

  /** `JSON.stringify` of one string: quotes, with `"`, `\` and control characters escaped. */
  function JsonQuote(s: string): (r: string)
    ensures |r| >= 2 && r[0] == '"' && r[|r| - 1] == '"'
  {
    "\"" + JsonChars(s) + "\""
  }

  function JsonChars(s: string): string {
    if s == [] then []
    else JsonChar(s[0]) + JsonChars(s[1..])
  }

  function JsonChar(c: char): string {
    if c == '"' then "\\\""
    else if c == '\\' then "\\\\"
    else if c == '\U{8}' then "\\b"
    else if c == '\U{C}' then "\\f"
    else if c == '\n' then "\\n"
    else if c == '\r' then "\\r"
    else if c == '\t' then "\\t"
    else if c < ' ' then HexEscape(c)
    else [c]
  }

  /** The value of a lower-case hexadecimal digit. */
  function HexValue(c: char): (v: nat)
    ensures v < 16
  {
    if '0' <= c <= '9' then c as int - '0' as int
    else if 'a' <= c <= 'f' then c as int - 'a' as int + 10
    else 0
  }

  /** The character a two-character escape `\x` stands for. */
  function UnescapedChar(c: char): char {
    if c == 'b' then '\U{8}'
    else if c == 'f' then '\U{C}'
    else if c == 'n' then '\n'
    else if c == 'r' then '\r'
    else if c == 't' then '\t'
    else c
  }

  /** Reading a JSON string's content back: `\uXXXX` and the two-character escapes become the
      characters they stand for, everything else stands for itself. */
  function JsonUnescape(t: string): string
    decreases |t|
  {
    if t == [] then []
    else if t[0] == '\\' && |t| >= 6 && t[1] == 'u' then
      [(HexValue(t[4]) * 16 + HexValue(t[5])) as char] + JsonUnescape(t[6..])
    else if t[0] == '\\' && |t| >= 2 then [UnescapedChar(t[1])] + JsonUnescape(t[2..])
    else [t[0]] + JsonUnescape(t[1..])
  }

  /** The escape of one character reads back as that character, whatever follows it. */
  lemma JsonCharUnescape(c: char, rest: string)
    ensures JsonUnescape(JsonChar(c) + rest) == [c] + JsonUnescape(rest)
  {
    var t := JsonChar(c) + rest;
    if c == '"' || c == '\\' || c == '\U{8}' || c == '\U{C}' || c == '\n' || c == '\r' || c == '\t' {
      assert |JsonChar(c)| == 2 && JsonChar(c)[0] == '\\';
      assert t[2..] == rest;
      assert JsonChar(c)[1] != 'u';
    } else if c < ' ' {
      var n := c as int;
      assert JsonChar(c) == HexEscape(c);
      assert t[..6] == HexEscape(c) && t[6..] == rest;
      assert HexValue(t[4]) == n / 16 by {
        assert t[4] == DigitChar(n / 16);
      }
      assert HexValue(t[5]) == n % 16 by {
        assert t[5] == "0123456789abcdef"[n % 16];
        HexDigitValue(n % 16);
      }
    } else {
      assert JsonChar(c) == [c];
      assert t[1..] == rest;
    }
  }

  lemma HexDigitValue(k: nat)
    requires k < 16
    ensures HexValue("0123456789abcdef"[k]) == k
  {
  }

  /** The escaping of `JSON.stringify` loses nothing: unescaping restores the string. */
  lemma {:induction false} JsonCharsInverse(s: string)
    ensures JsonUnescape(JsonChars(s)) == s
  {
    if s != [] {
      JsonCharsInverse(s[1..]);
      JsonCharUnescape(s[0], JsonChars(s[1..]));
      assert s == [s[0]] + s[1..];
    }
  }

  /** `JSON.stringify` of a string is the string, escaped, between double quotes, and reading the
      content between the quotes back gives the string. */
  lemma JsonQuoteInverse(s: string)
    ensures var q := JsonQuote(s); JsonUnescape(q[1..|q| - 1]) == s
  {
    var q := JsonQuote(s);
    assert q[1..|q| - 1] == JsonChars(s);
    JsonCharsInverse(s);
  }

  /** `JSON.stringify` of a loaded value. */
  function Json(v: Value): string
    decreases v
  {
    match v
    case Null => "null"
    case Bool(b) => if b then "true" else "false"
    case Num(n) => IntToDecimal(n)
    case Str(s) => JsonQuote(s)
    case List(items) => "[" + Join(seq(|items|, i requires 0 <= i < |items| => Json(items[i])), ",") + "]"
    case Mapping(entries) =>
      "{" + Join(seq(|entries|, i requires 0 <= i < |entries| => JsonQuote(entries[i].0) + ":" + Json(entries[i].1)), ",")
      + "}"
  }

  /** One line of the fallback stringifier. */
  function FallbackLine(key: string, v: Value): (line: string)
    ensures StartsWith(line, key + ": ")
    ensures v.Null? ==> line == key + ": null"
    ensures v == Bool(true) ==> line == key + ": "
    ensures v.Str? ==> line == key + ": \"" + EscapeQuotes(v.s) + "\""
    ensures !v.Null? && v != Bool(true) && !v.Str? ==> line == key + ": " + Json(v)
  {
    var head := key + ": ";
    var line :=
      if v.Null? then head + "null"
      else if v == Bool(true) then head + ""
      else if v.Str? then head + "\"" + EscapeQuotes(v.s) + "\""
      else head + Json(v);
    assert line[..|head|] == head;
    line
  }

  /** What the fallback writes after `key: ` reads back as the value for a string (strip the
      quotes, unescape) and for a number (an optional `-`, then the decimal digits). */
  lemma FallbackLineValue(key: string, v: Value)
    ensures var line := FallbackLine(key, v); var rest := line[|key| + 2..];
      && (v.Str? ==>
            && |rest| >= 2 && rest[0] == '"' && rest[|rest| - 1] == '"'
            && UnescapeQuotes(rest[1..|rest| - 1]) == v.s)
      && (v.Num? ==>
            && |rest| > 0 && (v.n < 0 <==> rest[0] == '-')
            && var digits := if v.n < 0 then rest[1..] else rest;
               && (forall i :: 0 <= i < |digits| ==> '0' <= digits[i] <= '9')
               && DecimalValue(digits) == if v.n < 0 then -v.n else v.n)
  {
    var line := FallbackLine(key, v);
    var rest := line[|key| + 2..];
    if v.Str? {
      var e := EscapeQuotes(v.s);
      assert line == key + ": " + ("\"" + e + "\"");
      assert rest == "\"" + e + "\"";
      assert rest[1..|rest| - 1] == e;
      EscapeQuotesInverse(v.s);
    } else if v.Num? {
      assert line == key + ": " + IntToDecimal(v.n);
      assert rest == IntToDecimal(v.n);
    }
  }

  /** The fallback stringifier: one line per key, in key order, joined by newlines. */
  function Fallback(fm: Entries): string {
    Join(FallbackLines(fm), "\n")
  }

  function FallbackLines(fm: Entries): (lines: seq<string>)
    ensures |lines| == |fm|
    ensures forall i :: 0 <= i < |fm| ==> lines[i] == FallbackLine(fm[i].0, fm[i].1)
  {
    seq(|fm|, i requires 0 <= i < |fm| => FallbackLine(fm[i].0, fm[i].1))
  }

  /** `stringifyFrontMatter`: the trimmed dump, or the fallback when the dump throws. */
  function Stringify(dump: Dumper, fm: Entries): (r: string)
    ensures dump(fm).Dumped? ==> r == Trim(dump(fm).text)
    ensures dump(fm).Dumped? ==> var t := dump(fm).text;
              exists a: nat :: a + |r| <= |t| && SpaceIn(t, 0, a) && r == t[a..a + |r|]
                               && SpaceIn(t, a + |r|, |t|)
    ensures dump(fm).Dumped? ==> r == [] || (!IsSpace(r[0]) && !IsSpace(r[|r| - 1]))
    ensures dump(fm).DumpError? ==> r == Fallback(fm)
  {
    match dump(fm)
    case Dumped(t) =>
      TrimSlice(t);
      Trim(t)
    case DumpError => Fallback(fm)
  }

  // ---------------------------------------------------------------------------------------------
  // One file

  /** The front matter after the assignment `frontMatter.id = id`. */
  function WithId(load: Loader, name: string, text: string): Entries {
    Assign(ParseLoose(load, text).frontMatter, IdKey, Str(GenerateId(name)))
  }

  /** The front matter's `id` is exactly the string `id`. */
  predicate IdIs(fm: Entries, id: string) {
    Get(fm, IdKey) == Some(Str(id))
  }

  /** The file already carries the ID its name calls for. */
  predicate HasId(load: Loader, name: string, text: string) {
    IdIs(ParseLoose(load, text).frontMatter, GenerateId(name))
  }

  /** `addIdToFile`: the new text to write, or nothing when the ID is already there. */
  function AddIdToFile(load: Loader, dump: Dumper, name: string, text: string): (r: Option<string>)
    ensures r.None? <==> HasId(load, name, text)
  {
    if HasId(load, name, text) then None
    else
      var p := ParseLoose(load, text);
      Some(WriteLoose(Stringify(dump, WithId(load, name, text)), p.body))
  }

  /** The new front matter holds the file's ID and every other key as it was, in place. */
  lemma WithIdKeeps(load: Loader, name: string, text: string)
    ensures var before := ParseLoose(load, text).frontMatter; var after := WithId(load, name, text);
      && Get(after, IdKey) == Some(Str(GenerateId(name)))
      && (forall k :: k != IdKey ==> Get(after, k) == Get(before, k))
      && (HasKey(before, IdKey) ==> Keys(after) == Keys(before))
      && (!HasKey(before, IdKey) ==> after == before + [(IdKey, Str(GenerateId(name)))])
  {
  }

  /** The stringifier's output is read back as the mapping it was given by the lenient parser. */
  ghost predicate RoundTrips(load: Loader, dump: Dumper, fm: Entries) {
    SafePayload(Stringify(dump, fm)) && load(Stringify(dump, fm)) == Loaded(Mapping(fm))
  }

  /** What the update writes reads back as the new front matter, and the body after its leading
      blank lines; the blank line the writer puts after the closing fence is not part of the body. */
  lemma AddIdReadBack(load: Loader, dump: Dumper, name: string, text: string)
    requires !HasId(load, name, text)
    requires RoundTrips(load, dump, WithId(load, name, text))
    ensures var out := AddIdToFile(load, dump, name, text).value;
      ParseLoose(load, out)
        == Parsed(WithId(load, name, text), DropLeadingBlankLines(ParseLoose(load, text).body))
  {
    var yml := Stringify(dump, WithId(load, name, text));
    WriteLooseReparse(yml, ParseLoose(load, text).body);
  }

  /** A second update of the same file changes nothing. */
  lemma AddIdIdempotent(load: Loader, dump: Dumper, name: string, text: string)
    requires !HasId(load, name, text)
    requires RoundTrips(load, dump, WithId(load, name, text))
    ensures AddIdToFile(load, dump, name, AddIdToFile(load, dump, name, text).value).None?
  {
    AddIdReadBack(load, dump, name, text);
    WithIdKeeps(load, name, text);
  }

  // ---------------------------------------------------------------------------------------------
  // The directory

  /** An entry the run rewrites: a document file whose ID is missing or different. Document-named
      subdirectories fail to read and are reported, never written. */
  predicate NeedsId(load: Loader, e: Node) {
    e.File? && IsDocName(e.name) && !HasId(load, e.name, e.text)
  }

  function NeedsIdIn(load: Loader): Node -> bool {
    (e: Node) => NeedsId(load, e)
  }

  /** The loop of `main` over the directory listing: the writes, in listing order. */
  function UpdateEntries(load: Loader, dump: Dumper, entries: seq<Node>): (writes: seq<FileWrite>)
    ensures |writes| <= |entries|
  {
    if entries == [] then []
    else
      var e := entries[0];
      var rest := UpdateEntries(load, dump, entries[1..]);
      if NeedsId(load, e) then [UpdateOf(load, dump, e.name, e.text)] + rest
      else rest
  }

  /** The run's result: the directory is missing (exit code 1 before any write), it cannot be
      listed (the listing throws outside every handler), or the writes and the count reported. */
  datatype Outcome = DirectoryMissing | ListingFailed | Finished(writes: seq<FileWrite>, updated: nat)

  /** `main`. */
  function AddIds(load: Loader, dump: Dumper, dir: Option<Node>): (r: Outcome)
    ensures dir.None? <==> r.DirectoryMissing?
    ensures r.Finished? ==> r.updated == |r.writes|
  {
    match dir
    case None => DirectoryMissing
    case Some(File(_, _)) => ListingFailed
    case Some(Dir(_, entries)) =>
      var w := UpdateEntries(load, dump, entries);
      Finished(w, |w|)
  }

  /** The writes go, in listing order, to exactly the document files lacking their ID, and each
      carries that file's update. */
  lemma {:induction false} UpdateEntriesExactly(load: Loader, dump: Dumper, entries: seq<Node>)
    ensures WritesMatch(load, dump, UpdateEntries(load, dump, entries), Filter(NeedsIdIn(load), entries))
  {
    if entries != [] {
      UpdateEntriesExactly(load, dump, entries[1..]);
      FilterHead(NeedsIdIn(load), entries);
      var e := entries[0];
      if NeedsId(load, e) {
        RelatedCons(UpdateRel(load, dump), e, UpdateOf(load, dump, e.name, e.text),
                    Filter(NeedsIdIn(load), entries[1..]), UpdateEntries(load, dump, entries[1..]));
      }
    }
  }

  /** The i-th write is the update of the i-th entry of `need`. */
  predicate WritesMatch(load: Loader, dump: Dumper, writes: seq<FileWrite>, need: seq<Node>) {
    Related(UpdateRel(load, dump), need, writes)
  }

  /** The rewrite of a file by the update (its text unchanged when the update writes nothing). */
  function UpdateOf(load: Loader, dump: Dumper, name: string, text: string): FileWrite {
    FileWrite(name, AddIdToFile(load, dump, name, text).GetOr(text))
  }

  function UpdateRel(load: Loader, dump: Dumper): (Node, FileWrite) -> bool {
    (e: Node, w: FileWrite) => e.File? && w == UpdateOf(load, dump, e.name, e.text)
  }

  /** Two sequences of equal length, related position by position. */
  predicate Related<A, B>(rel: (A, B) -> bool, xs: seq<A>, ys: seq<B>) {
    |xs| == |ys| && forall i :: 0 <= i < |xs| ==> rel(xs[i], ys[i])
  }

  lemma RelatedCons<A, B>(rel: (A, B) -> bool, x: A, y: B, xs: seq<A>, ys: seq<B>)
    requires rel(x, y) && Related(rel, xs, ys)
    ensures Related(rel, [x] + xs, [y] + ys)
  {
    var xs', ys' := [x] + xs, [y] + ys;
    forall i | 1 <= i < |xs'| ensures rel(xs'[i], ys'[i]) {
      assert xs'[i] == xs[i - 1] && ys'[i] == ys[i - 1];
    }
  }

  lemma FilterHead<T>(p: T -> bool, s: seq<T>)
    requires s != []
    ensures Filter(p, s) == if p(s[0]) then [s[0]] + Filter(p, s[1..]) else Filter(p, s[1..])
  {
    assert s == [s[0]] + s[1..];
    FilterConcat(p, [s[0]], s[1..]);
  }

  /** The count printed is the number of files that lacked their ID. */
  lemma AddIdsCount(load: Loader, dump: Dumper, dir: Option<Node>)
    requires dir.Some? && dir.value.Dir?
    ensures AddIds(load, dump, dir).Finished?
    ensures AddIds(load, dump, dir).updated == |Filter(NeedsIdIn(load), dir.value.entries)|
  {
    UpdateEntriesExactly(load, dump, dir.value.entries);
  }

  /** The text the run leaves in a directory entry named like a written one. */
  lemma {:induction false} WrittenByUpdate(load: Loader, dump: Dumper, entries: seq<Node>, k: nat)
    requires UniqueNames(entries) && k < |entries|
    ensures WrittenText(UpdateEntries(load, dump, entries), entries[k].name)
         == if NeedsId(load, entries[k]) then AddIdToFile(load, dump, entries[k].name, entries[k].text) else None
  {
    var e := entries[0];
    var rest := UpdateEntries(load, dump, entries[1..]);
    assert UniqueNames(entries[1..]) by {
      forall i, j | 0 <= i < j < |entries[1..]| ensures entries[1..][i].name != entries[1..][j].name {
        assert entries[1..][i] == entries[i + 1] && entries[1..][j] == entries[j + 1];
      }
    }
    if k == 0 {
      NoWriteTo(load, dump, entries[1..], e.name);
      if NeedsId(load, e) {
        WrittenTextFront(UpdateOf(load, dump, e.name, e.text), rest, e.name);
      }
    } else {
      assert entries[1..][k - 1] == entries[k];
      WrittenByUpdate(load, dump, entries[1..], k - 1);
      if NeedsId(load, e) {
        WrittenTextFront(UpdateOf(load, dump, e.name, e.text), rest, entries[k].name);
      }
    }
  }

  /** No write of the rest of the listing goes to a name the rest does not contain. */
  lemma NoWriteTo(load: Loader, dump: Dumper, entries: seq<Node>, name: string)
    requires forall e :: e in entries ==> e.name != name
    ensures WrittenText(UpdateEntries(load, dump, entries), name).None?
  {
    UpdateEntriesExactly(load, dump, entries);
    var writes := UpdateEntries(load, dump, entries);
    var need := Filter(NeedsIdIn(load), entries);
    forall w | w in writes ensures w.name != name {
      var i :| 0 <= i < |writes| && writes[i] == w;
      assert need[i] in entries;
    }
  }

  /** A write placed before the others matters only when no later one goes to the same name. */
  lemma WrittenTextFront(w: FileWrite, rest: seq<FileWrite>, name: string)
    ensures WrittenText([w] + rest, name)
         == if WrittenText(rest, name).Some? then WrittenText(rest, name)
            else if w.name == name then Some(w.text) else None
    decreases |rest|
  {
    var s := [w] + rest;
    if rest != [] {
      var front := rest[..|rest| - 1];
      assert s[..|s| - 1] == [w] + front;
      WrittenTextFront(w, front, name);
    }
  }

  /** Running the assigner a second time, over what the first run left, writes nothing, provided
      the stringifier's output reads back (what the library's dump and load promise). */
  lemma AddIdsIdempotent(load: Loader, dump: Dumper, name: string, entries: seq<Node>)
    requires UniqueNames(entries)
    requires forall e :: e in entries && NeedsId(load, e) ==> RoundTrips(load, dump, WithId(load, e.name, e.text))
    ensures var first := AddIds(load, dump, Some(Dir(name, entries)));
      && first.Finished?
      && AddIds(load, dump, Some(Dir(name, ApplyWrites(entries, first.writes)))) == Finished([], 0)
  {
    var writes := UpdateEntries(load, dump, entries);
    var after := ApplyWrites(entries, writes);
    forall k | 0 <= k < |after| ensures !NeedsId(load, after[k]) {
      var e := entries[k];
      if e.File? {
        WrittenByUpdate(load, dump, entries, k);
        if NeedsId(load, e) {
          assert e in entries;
          AddIdIdempotent(load, dump, e.name, e.text);
        }
      }
    }
    NothingNeeded(load, dump, after);
  }

  lemma {:induction false} NothingNeeded(load: Loader, dump: Dumper, entries: seq<Node>)
    requires forall k :: 0 <= k < |entries| ==> !NeedsId(load, entries[k])
    ensures UpdateEntries(load, dump, entries) == []
  {
    if entries != [] {
      assert !NeedsId(load, entries[0]);
      NothingNeeded(load, dump, entries[1..]);
    }
  }
}
