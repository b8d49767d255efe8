/** Front matter as the scripts see it after `yaml.load`: a JavaScript object whose keys keep
    their insertion order, over a closed set of value shapes. */
module FrontMatter {
  import opened Wrappers
  import opened Text

  /** The value shapes a YAML document loads into. Numbers are integral in this model. */
  datatype Value =
    | Null
    | Bool(b: bool)
    | Num(n: int)
    | Str(s: string)
    | List(items: seq<Value>)
    | Mapping(entries: seq<(string, Value)>)

  /** An object's own properties in insertion order. */
  type Entries = seq<(string, Value)>

  /** Outcome of `yaml.load`: it either throws or yields a value. */
  datatype LoadResult = LoadError | Loaded(doc: Value)

  /** `yaml.load`, a foreign library call, is a parameter of every operation that parses. */
  type Loader = string -> LoadResult

  /** JavaScript truthiness: `null`, `false`, `0` and `""` are falsy, every object is truthy. */
  predicate Truthy(v: Value) {
    match v
    case Null => false
    case Bool(b) => b
    case Num(n) => n != 0
    case Str(s) => s != ""
    case _ => true
  }

  /** The mapping the scripts keep from a loaded document, `(yaml.load(text) as FrontMatter) || {}`.
      A falsy document gives the empty mapping; a truthy scalar or sequence answers every property
      read with `undefined`, exactly like the empty mapping. */
  function MappingOf(v: Value): (e: Entries)
    ensures v.Mapping? ==> e == v.entries
    ensures !v.Mapping? ==> e == []
  {
    if v.Mapping? then v.entries else []
  }

  /** Numeric coercion applied by the comparators' subtraction. Non-numeric text (which the
      runtime turns into NaN) is read as 0 here. */
  function ToNumber(v: Value): int {
    match v
    case Num(n) => n
    case Bool(b) => if b then 1 else 0
    case _ => 0
  }

  function Keys(e: Entries): (ks: seq<string>)
    ensures |ks| == |e|
    ensures forall i :: 0 <= i < |e| ==> ks[i] == e[i].0
  {
    if e == [] then [] else [e[0].0] + Keys(e[1..])
  }

  /** Object keys are unique. */
  predicate UniqueKeys(e: Entries) {
    forall i, j :: 0 <= i < j < |e| ==> e[i].0 != e[j].0
  }

  predicate HasKey(e: Entries, k: string) {
    k in Keys(e)
  }

  /** Where the key k sits. */
  function KeyIndex(e: Entries, k: string): (i: nat)
    requires HasKey(e, k)
    ensures i < |e| && e[i].0 == k
    ensures forall j :: 0 <= j < i ==> e[j].0 != k
  {
    if e[0].0 == k then 0
    else
      assert Keys(e) == [e[0].0] + Keys(e[1..]);
      1 + KeyIndex(e[1..], k)
  }

  /** Property read `obj[k]`; None plays the part of `undefined`. */
  function Get(e: Entries, k: string): (r: Option<Value>)
    ensures r.None? <==> !HasKey(e, k)
    ensures r.Some? ==> (k, r.value) in e
  {
    if e == [] then None
    else if e[0].0 == k then Some(e[0].1)
    else
      assert Keys(e) == [e[0].0] + Keys(e[1..]);
      Get(e[1..], k)
  }

  lemma KeysCons(p: (string, Value), t: Entries)
    ensures Keys([p] + t) == [p.0] + Keys(t)
  {
    assert ([p] + t)[1..] == t;
  }

  lemma GetCons(p: (string, Value), t: Entries)
    ensures forall k :: Get([p] + t, k) == if p.0 == k then Some(p.1) else Get(t, k)
  {
    assert ([p] + t)[1..] == t;
  }

  /** Property assignment `obj[k] = v`: an existing key keeps its place, a new key is appended. */
  function Assign(e: Entries, k: string, v: Value): (r: Entries)
    ensures Get(r, k) == Some(v)
    ensures forall k' :: k' != k ==> Get(r, k') == Get(e, k')
    ensures HasKey(e, k) ==> Keys(r) == Keys(e)
    ensures !HasKey(e, k) ==> r == e + [(k, v)]
  {
    if e == [] then [(k, v)]
    else
      var p, rest := e[0], e[1..];
      assert e == [p] + rest;
      KeysCons(p, rest);
      GetCons(p, rest);
      if p.0 == k then
        KeysCons((k, v), rest);
        GetCons((k, v), rest);
        [(k, v)] + rest
      else
        var t := Assign(rest, k, v);
        AssignSkip(p, rest, k, v, t);
        [p] + t
  }

  /** Assigning past a property with another key: the facts about the tail carry over to the
      whole list. */
  lemma AssignSkip(p: (string, Value), rest: Entries, k: string, v: Value, t: Entries)
    requires p.0 != k
    requires Get(t, k) == Some(v)
    requires forall k' :: k' != k ==> Get(t, k') == Get(rest, k')
    requires HasKey(rest, k) ==> Keys(t) == Keys(rest)
    requires !HasKey(rest, k) ==> t == rest + [(k, v)]
    ensures Get([p] + t, k) == Some(v)
    ensures forall k' :: k' != k ==> Get([p] + t, k') == Get([p] + rest, k')
    ensures HasKey([p] + rest, k) ==> Keys([p] + t) == Keys([p] + rest)
    ensures !HasKey([p] + rest, k) ==> [p] + t == ([p] + rest) + [(k, v)]
  {
    KeysCons(p, rest);
    GetCons(p, rest);
    KeysCons(p, t);
    GetCons(p, t);
    assert ([p] + rest) + [(k, v)] == [p] + (rest + [(k, v)]);
  }

  /** `delete obj[k]`: the key is gone and every other property keeps its value. */
  function Delete(e: Entries, k: string): (r: Entries)
    ensures Get(r, k).None?
    ensures forall k' :: k' != k ==> Get(r, k') == Get(e, k')
    ensures !HasKey(e, k) ==> r == e
    ensures HasKey(e, k) ==> |r| < |e|
  {
    if e == [] then []
    else
      var p, rest := e[0], e[1..];
      assert e == [p] + rest;
      KeysCons(p, rest);
      GetCons(p, rest);
      var t := Delete(rest, k);
      if p.0 == k then t
      else
        KeysCons(p, t);
        GetCons(p, t);
        [p] + t
  }

  /** With unique keys, `delete obj[k]` takes out the one property keyed k and keeps the others
      in their order. */
  lemma {:induction false} DeleteAt(e: Entries, k: string)
    requires UniqueKeys(e) && HasKey(e, k)
    ensures Delete(e, k) == e[..KeyIndex(e, k)] + e[KeyIndex(e, k) + 1..]
  {
    UniqueTail(e);
    if e[0].0 == k {
      assert Delete(e, k) == Delete(e[1..], k) == e[1..];
    } else {
      KeysCons(e[0], e[1..]);
      DeleteAt(e[1..], k);
      DeleteAtStep(e, k);
    }
  }

  lemma DeleteAtStep(e: Entries, k: string)
    requires |e| > 0 && e[0].0 != k && HasKey(e, k) && HasKey(e[1..], k)
    requires Delete(e[1..], k) == e[1..][..KeyIndex(e[1..], k)] + e[1..][KeyIndex(e[1..], k) + 1..]
    ensures Delete(e, k) == e[..KeyIndex(e, k)] + e[KeyIndex(e, k) + 1..]
  {
    var i := KeyIndex(e[1..], k);
    assert KeyIndex(e, k) == i + 1;
    assert Delete(e, k) == [e[0]] + Delete(e[1..], k);
    SkipAfterHead(e, i);
  }

  lemma SkipAfterHead<T>(x: seq<T>, i: nat)
    requires i + 1 < |x|
    ensures x[..i + 1] + x[i + 2..] == [x[0]] + (x[1..][..i] + x[1..][i + 1..])
  {
    assert x[..i + 1] == [x[0]] + x[1..][..i];
  }

  /** Behind the first property of a list with unique keys, the keys are unique and its key is gone. */
  lemma UniqueTail(e: Entries)
    requires UniqueKeys(e) && |e| > 0
    ensures UniqueKeys(e[1..]) && !HasKey(e[1..], e[0].0)
  {
    var rest := e[1..];
    forall a, b | 0 <= a < b < |rest| ensures rest[a].0 != rest[b].0 {
      assert rest[a] == e[a + 1] && rest[b] == e[b + 1];
    }
  }

  lemma {:induction false} GetUnique(e: Entries, i: nat)
    requires UniqueKeys(e) && i < |e|
    ensures Get(e, e[i].0) == Some(e[i].1)
  {
    if i > 0 {
      GetUnique(e[1..], i - 1);
    }
  }

  lemma {:induction false} AssignKeepsKeysUnique(e: Entries, k: string, v: Value)
    requires UniqueKeys(e)
    ensures UniqueKeys(Assign(e, k, v))
  {
    var r := Assign(e, k, v);
    if HasKey(e, k) {
      assert Keys(r) == Keys(e);
      forall i, j | 0 <= i < j < |r| ensures r[i].0 != r[j].0 {
        assert Keys(r)[i] == Keys(e)[i] && Keys(r)[j] == Keys(e)[j];
      }
    } else {
      assert r == e + [(k, v)];
      forall i, j | 0 <= i < j < |r| ensures r[i].0 != r[j].0 {
        assert r[i] == e[i];
        if j < |e| {
          assert r[j] == e[j];
        } else {
          assert r[j].0 == k && Keys(e)[i] == e[i].0;
        }
      }
    }
  }

  lemma {:induction false} DeleteKeepsKeysUnique(e: Entries, k: string)
    requires UniqueKeys(e)
    ensures UniqueKeys(Delete(e, k))
    ensures forall p :: p in Delete(e, k) ==> p in e
  {
    if e != [] {
      DeleteKeepsKeysUnique(e[1..], k);
      var t := Delete(e[1..], k);
      if e[0].0 != k {
        var r := [e[0]] + t;
        forall i | 0 < i < |r| ensures r[i].0 != e[0].0 {
          assert r[i] == t[i - 1];
          assert t[i - 1] in e[1..];
        }
      }
    }
  }

  lemma {:induction false} AssignSameValueIsIdentity(e: Entries, k: string, v: Value)
    requires Get(e, k) == Some(v)
    ensures Assign(e, k, v) == e
  {
    if e != [] && e[0].0 != k {
      AssignSameValueIsIdentity(e[1..], k, v);
      assert e == [e[0]] + e[1..];
    }
  }
}
