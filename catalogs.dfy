/**
 * Key resolution over a parsed JSON catalog: the exact top-level lookup of
 * `localizeFile` and the dotted path walk of `localizeLevel`.
 */
module Catalogs {
  import opened Wrappers
  import opened Text

  /** A parsed JSON value. `Other` stands for numbers, booleans, arrays and null:
      anything that is neither a string nor an object. */
  datatype Json = Str(text: string) | Dict(entries: map<string, Json>) | Other

  /** The top level of a catalog file, which must be a JSON object. */
  type Catalog = map<string, Json>

  /** The node reached from `node` by following `path` one key at a time,
      or `None` as soon as a key is missing or the current node is not an object. */
  function Descend(node: Json, path: seq<string>): Option<Json>
    decreases |path|
  {
    if path == [] then Some(node)
    else if node.Dict? && path[0] in node.entries then Descend(node.entries[path[0]], path[1..])
    else None
  }

  /** The string held by a reached node; anything else is not a localization. */
  function AsString(n: Option<Json>): Option<string>
  {
    if n.Some? && n.value.Str? then Some(n.value.text) else None
  }

  /** The specification of the path walk: descend, then keep only a string leaf. */
  function Walk(root: Json, path: seq<string>): (r: Option<string>)
    ensures r.Some? ==> Descend(root, path) == Some(Str(r.value))
    ensures r.None? ==> Descend(root, path).None? || !Descend(root, path).value.Str?
  {
    AsString(Descend(root, path))
  }

  /** Walking `p + q` is walking `p`, then walking `q` from where `p` ended. */
  lemma {:induction false} DescendAppend(n: Json, p: seq<string>, q: seq<string>)
    ensures Descend(n, p + q) == (if Descend(n, p).Some? then Descend(Descend(n, p).value, q) else None)
    decreases |p|
  {
    if p != [] {
      assert (p + q)[0] == p[0];
      assert (p + q)[1..] == p[1..] + q;
      if n.Dict? && p[0] in n.entries {
        DescendAppend(n.entries[p[0]], p[1..], q);
      }
    } else {
      assert p + q == q;
    }
  }

  /** The walk fails as soon as a segment is absent or the node reached so far
      is not an object, whatever the remaining segments are. */
  lemma WalkStopsAt(root: Json, path: seq<string>, i: nat, node: Json)
    requires i < |path|
    requires Descend(root, path[..i]) == Some(node)
    requires !node.Dict? || path[i] !in node.entries
    ensures Walk(root, path) == None
  {
    assert path == path[..i] + path[i..];
    DescendAppend(root, path[..i], path[i..]);
  }

  /** `localizeLevel`: split the key on `.` and descend segment by segment. */
  method LocalizeLevel(key: string, json: Json) returns (r: Option<string>)
    ensures r == Walk(json, Split(key, '.'))
  {
    var values := Split(key, '.');
    var current := json;
    var i := 0;
    while i < |values|
      invariant 0 <= i <= |values|
      invariant Descend(json, values) == Descend(current, values[i..])
    {
      var segment := values[i];
      assert values[i..][0] == segment && values[i..][1..] == values[i + 1..];
      if current.Dict? && segment in current.entries {
        current := current.entries[segment];
      } else {
        return None;
      }
      i := i + 1;
    }
    assert values[i..] == [];
    r := if current.Str? then Some(current.text) else None;
  }

  /** `localizeFile`: an exact top-level match decides on its own (a non-string
      value there is a miss, with no path walk); only an absent key is walked
      as a dotted path. */
  function LocalizeFile(key: string, json: Catalog): (r: Option<string>)
    ensures key in json ==> (r.Some? <==> json[key].Str?)
    ensures key in json && r.Some? ==> json[key] == Str(r.value)
    ensures key !in json && r.Some? ==> Descend(Dict(json), Split(key, '.')) == Some(Str(r.value))
    ensures key !in json && r.None? ==> forall s :: Descend(Dict(json), Split(key, '.')) != Some(Str(s))
  {
    if key in json then AsString(Some(json[key]))
    else Walk(Dict(json), Split(key, '.'))
  }

  /** A key without a dot is looked up at the top level only. */
  lemma FlatKey(key: string, json: Catalog)
    requires '.' !in key
    ensures LocalizeFile(key, json) == (if key in json && json[key].Str? then Some(json[key].text) else None)
  {
    SplitWithout(key, '.');
    if key !in json {
      assert Descend(Dict(json), [key]) == None;
    }
  }

  /** `localize(key:)` once the catalog has been read: the localization when
      there is one, otherwise the key itself. */
  function Resolve(catalog: Option<Catalog>, key: string): (r: string)
    ensures catalog.None? ==> r == key
    ensures catalog.Some? && LocalizeFile(key, catalog.value).None? ==> r == key
    ensures catalog.Some? && LocalizeFile(key, catalog.value).Some? ==> r == LocalizeFile(key, catalog.value).value
    ensures r != key ==> catalog.Some? && LocalizeFile(key, catalog.value) == Some(r)
  {
    if catalog.None? then key
    else match LocalizeFile(key, catalog.value)
      case None => key
      case Some(s) => s
  }

  /** The catalog `{"hello": {"world": "Hello world!"}}` resolves `hello.world`. */
  lemma HelloWorld()
    ensures Resolve(Some(map["hello" := Dict(map["world" := Str("Hello world!")])]), "hello.world") == "Hello world!"
  {
    var inner: Catalog := map["world" := Str("Hello world!")];
    var c: Catalog := map["hello" := Dict(inner)];
    var path := ["hello", "world"];
    assert Descend(Dict(c), path) == Some(Str("Hello world!")) by {
      assert path[1..] == ["world"] && path[1..][1..] == [];
    }
    assert LocalizeFile("hello.world", c) == Some("Hello world!") by {
      SplitHelloWorld();
      assert "hello.world" !in c;
    }
  }

  lemma SplitHelloWorld()
    ensures Split("hello.world", '.') == ["hello", "world"]
  {
    assert "hello.world" == "hello" + ['.'] + "world";
    SplitWithout("world", '.');
    SplitDecomposes("hello", "world", '.');
  }
}
