/** The connector properties parser of the REST and distributed tests: a
    `key=value` properties text becomes the string map sent to the REST API.
    The Python is one expression,
      dict([line.strip().split('=', 1) for line in props.split('\n')
            if line.strip() and not line.strip().startswith('#')])
    and each stage of it is one function below. */
module ConnectorProps {
  import opened Text

  /** What `dict()` raises on: the element at position `element` of the list it
      was given has `length` items instead of two. */
  datatype ParseError = BadElement(element: nat, length: nat)

  datatype Result<T> = Ok(value: T) | Err(error: ParseError)

  /** A line survives the filter when its stripped form is not empty and does
      not start with `#`. */
  predicate Kept(line: string) {
    var t := Strip(line);
    t != [] && t[0] != '#'
  }

  /** The stripped form of every kept line, in order. */
  function KeptLines(lines: seq<string>): (r: seq<string>)
    ensures |r| <= |lines|
    ensures forall i :: 0 <= i < |r| ==> r[i] != [] && r[i][0] != '#' && Trimmed(r[i])
    ensures forall t :: t in r <==> exists i :: 0 <= i < |lines| && Kept(lines[i]) && Strip(lines[i]) == t
  {
    if lines == [] then []
    else
      var rest := KeptLines(lines[1..]);
      assert forall i :: 1 <= i < |lines| ==> lines[i] == lines[1..][i - 1];
      if Kept(lines[0]) then [Strip(lines[0])] + rest else rest
  }

  /** Filtering a concatenation filters each part. */
  lemma {:induction false} KeptLinesAppend(a: seq<string>, b: seq<string>)
    ensures KeptLines(a + b) == KeptLines(a) + KeptLines(b)
  {
    if a == [] {
      assert a + b == b;
    } else {
      assert (a + b)[1..] == a[1..] + b;
      KeptLinesAppend(a[1..], b);
    }
  }

  /** `line.split(sep, 1)`: one piece when `sep` does not occur, otherwise the
      text before the first `sep` and everything after it. */
  function SplitAtFirst(line: string, sep: char): (r: seq<string>)
    ensures 1 <= |r| <= 2
    ensures |r| == 1 <==> sep !in line
    ensures |r| == 1 ==> r[0] == line
    ensures |r| == 2 ==> sep !in r[0] && r[0] + [sep] + r[1] == line
  {
    if line == [] then [line]
    else if line[0] == sep then [[], line[1..]]
    else
      var t := SplitAtFirst(line[1..], sep);
      if |t| == 1 then [line]
      else
        assert [line[0]] + t[0] + [sep] + t[1] == [line[0]] + (t[0] + [sep] + t[1]);
        [[line[0]] + t[0], t[1]]
  }

  /** A line is cut at its first separator: a key free of `sep` followed by
      `sep` and any value, which may itself hold `sep`, splits back into that
      key and that value. */
  lemma {:induction false} SplitAtFirstUnique(key: string, sep: char, value: string)
    requires sep !in key
    ensures SplitAtFirst(key + [sep] + value, sep) == [key, value]
  {
    var line := key + [sep] + value;
    if key != [] {
      assert line[1..] == key[1..] + [sep] + value;
      SplitAtFirstUnique(key[1..], sep, value);
      assert [key[0]] + key[1..] == key;
    }
  }

  /** The list comprehension: every kept line split at its first `=`. */
  function Pieces(lines: seq<string>): (r: seq<seq<string>>)
    ensures |r| == |lines|
    ensures forall i :: 0 <= i < |r| ==> r[i] == SplitAtFirst(lines[i], '=')
  {
    seq(|lines|, i requires 0 <= i < |lines| => SplitAtFirst(lines[i], '='))
  }

  /** `dict(items)`: the elements are inserted in order, so a later element
      overwrites an earlier one with the same key, and the first element that
      is not a pair raises. */
  function Dict(items: seq<seq<string>>): (r: Result<map<string, string>>)
    ensures r.Err? <==> exists i :: 0 <= i < |items| && |items[i]| != 2
    ensures r.Err? ==>
      && r.error.element < |items|
      && r.error.length == |items[r.error.element]| != 2
      && forall i :: 0 <= i < r.error.element ==> |items[i]| == 2
  {
    if items == [] then Ok(map[])
    else
      var n := |items| - 1;
      var init := items[..n];
      assert forall i :: 0 <= i < n ==> items[i] == init[i];
      match Dict(init)
      case Err(e) => Err(e)
      case Ok(m) =>
        if |items[n]| != 2 then Err(BadElement(n, |items[n]|))
        else Ok(m[items[n][0] := items[n][1]])
  }

  /** True when every element handed to `dict()` is a pair. */
  predicate AllPairs(items: seq<seq<string>>) {
    forall i :: 0 <= i < |items| ==> |items[i]| == 2
  }

  /** The keys of `dict(items)` are the first items of its pairs. */
  lemma {:induction false} DictKeys(items: seq<seq<string>>)
    requires AllPairs(items)
    ensures Dict(items).Ok?
    ensures forall key :: key in Dict(items).value <==> exists i :: 0 <= i < |items| && items[i][0] == key
  {
    if items != [] {
      var n := |items| - 1;
      var init := items[..n];
      assert forall i :: 0 <= i < n ==> items[i] == init[i];
      DictKeys(init);
    }
  }

  /** The value of a key in `dict(items)` is that of its last pair. */
  lemma {:induction false} DictLastWins(items: seq<seq<string>>, i: nat)
    requires AllPairs(items)
    requires i < |items|
    requires forall j :: i < j < |items| ==> items[j][0] != items[i][0]
    ensures Dict(items).Ok?
    ensures items[i][0] in Dict(items).value && Dict(items).value[items[i][0]] == items[i][1]
  {
    DictKeys(items);
    var n := |items| - 1;
    if i < n {
      var init := items[..n];
      assert forall j :: 0 <= j < n ==> items[j] == init[j];
      DictLastWins(init, i);
    }
  }

  /** The stripped, kept lines of a properties text. */
  function PropLines(text: string): seq<string> {
    KeptLines(SplitLines(text))
  }

  /** `_config_dict_from_props(text)`: fails at the first kept line without a
      `=`, where `dict()` is handed a one-element list; succeeds when every
      kept line has one. */
  function ParseProps(text: string): (r: Result<map<string, string>>)
    ensures r.Ok? ==> forall i :: 0 <= i < |PropLines(text)| ==> '=' in PropLines(text)[i]
    ensures r.Err? ==>
      && r.error.element < |PropLines(text)|
      && r.error.length == 1
      && '=' !in PropLines(text)[r.error.element]
  {
    Dict(Pieces(PropLines(text)))
  }

  /** The parse fails exactly when some kept line has no `=`; the error points
      at the first such line, counted among the kept lines, and says that
      `dict()` saw a one-element list there. */
  lemma ParseFailsIff(text: string)
    ensures ParseProps(text).Err? <==>
      exists i :: 0 <= i < |PropLines(text)| && '=' !in PropLines(text)[i]
    ensures ParseProps(text).Err? ==>
      var k := ParseProps(text).error.element;
      && ParseProps(text).error.length == 1
      && k < |PropLines(text)| && '=' !in PropLines(text)[k]
      && forall i :: 0 <= i < k ==> '=' in PropLines(text)[i]
  {
    var ls := PropLines(text);
    var ps := Pieces(ls);
    assert forall i :: 0 <= i < |ls| ==> ('=' !in ls[i] <==> |ps[i]| != 2);
  }

  /** On success every kept line holds a `=` and contributes one entry, split at
      its first `=`: the keys of the map are exactly the keys of the kept lines,
      and no key contains `=`. */
  lemma ParseEntries(text: string)
    requires ParseProps(text).Ok?
    ensures var ls, m := PropLines(text), ParseProps(text).value;
      && (forall i :: 0 <= i < |ls| ==> '=' in ls[i])
      && (forall key :: key in m ==> '=' !in key)
      && (forall key :: key in m <==> exists i :: 0 <= i < |ls| && SplitAtFirst(ls[i], '=')[0] == key)
  {
    var ls := PropLines(text);
    var ps := Pieces(ls);
    assert AllPairs(ps);
    DictKeys(ps);
  }

  /** A kept line `key=value` whose key has no `=` maps `key` to `value` unless
      a later kept line has the same key. Whitespace that `key` ends with or
      `value` starts with stays: only the ends of the whole line are stripped. */
  lemma ParseLine(text: string, i: nat, key: string, value: string)
    requires ParseProps(text).Ok?
    requires i < |PropLines(text)| && PropLines(text)[i] == key + "=" + value && '=' !in key
    requires forall j :: i < j < |PropLines(text)| ==> SplitAtFirst(PropLines(text)[j], '=')[0] != key
    ensures key in ParseProps(text).value && ParseProps(text).value[key] == value
  {
    var ls := PropLines(text);
    var ps := Pieces(ls);
    assert AllPairs(ps);
    SplitAtFirstUnique(key, '=', value);
    assert ps[i] == [key, value];
    DictLastWins(ps, i);
  }

  /** The connector properties text written out as `key=value` lines. */
  function Render(entries: seq<(string, string)>): string {
    if entries == [] then ""
    else entries[0].0 + "=" + entries[0].1 + "\n" + Render(entries[1..])
  }

  /** The lines of `Render(entries)`. */
  function EntryLines(entries: seq<(string, string)>): (r: seq<string>)
    ensures |r| == |entries|
    ensures forall i :: 0 <= i < |r| ==> r[i] == entries[i].0 + "=" + entries[i].1
  {
    if entries == [] then [] else [entries[0].0 + "=" + entries[0].1] + EntryLines(entries[1..])
  }

  /** A key that a rendered line gives back unchanged: no `=`, no line feed, no
      leading whitespace and no leading `#`. */
  predicate RenderableKey(key: string) {
    '=' !in key && '\n' !in key && (key != [] ==> !IsSpace(key[0]) && key[0] != '#')
  }

  /** A value that a rendered line gives back unchanged: no line feed and no
      trailing whitespace. */
  predicate RenderableValue(value: string) {
    '\n' !in value && (value != [] ==> !IsSpace(value[|value| - 1]))
  }

  /** The text of a rendered line splits into that line and the rest. */
  lemma {:induction false} SplitRendered(entries: seq<(string, string)>)
    requires forall i :: 0 <= i < |entries| ==> '\n' !in entries[i].0 && '\n' !in entries[i].1
    ensures SplitLines(Render(entries)) == EntryLines(entries) + [""]
  {
    if entries != [] {
      var line := entries[0].0 + "=" + entries[0].1;
      assert '\n' !in line;
      assert Render(entries) == line + "\n" + Render(entries[1..]);
      SplitLinesCons(line, Render(entries[1..]));
      SplitRendered(entries[1..]);
    }
  }

  /** A rendered line with a renderable key and value is kept as it is. */
  lemma RenderedLineKept(key: string, value: string)
    requires RenderableKey(key) && RenderableValue(value)
    ensures Kept(key + "=" + value) && Strip(key + "=" + value) == key + "=" + value
  {
    var line := key + "=" + value;
    var first := if key == [] then '=' else key[0];
    var last := if value == [] then '=' else value[|value| - 1];
    assert line[0] == first;
    assert line[|line| - 1] == last;
    assert !IsSpace(first) && !IsSpace(last) && first != '#';
    assert Trimmed(line);
    StripFixesTrimmed(line);
  }

  /** Rendered lines with renderable keys and values all survive the filter,
      unchanged. */
  lemma {:induction false} KeptRendered(entries: seq<(string, string)>)
    requires forall i :: 0 <= i < |entries| ==> RenderableKey(entries[i].0) && RenderableValue(entries[i].1)
    ensures KeptLines(EntryLines(entries)) == EntryLines(entries)
  {
    if entries != [] {
      var ls := EntryLines(entries);
      RenderedLineKept(entries[0].0, entries[0].1);
      assert ls[1..] == EntryLines(entries[1..]);
      KeptRendered(entries[1..]);
      assert KeptLines(ls) == [ls[0]] + KeptLines(ls[1..]);
    }
  }

  /** Rendering entries with renderable keys and values and reading the text
      back keeps every line, and each line splits into its entry's pair. */
  lemma RenderParse(entries: seq<(string, string)>)
    requires forall i :: 0 <= i < |entries| ==> RenderableKey(entries[i].0) && RenderableValue(entries[i].1)
    ensures PropLines(Render(entries)) == EntryLines(entries)
    ensures forall i :: 0 <= i < |entries| ==> Pieces(EntryLines(entries))[i] == [entries[i].0, entries[i].1]
  {
    var ls := EntryLines(entries);
    SplitRendered(entries);
    KeptLinesAppend(ls, [""]);
    KeptRendered(entries);
    assert KeptLines([""]) == [];
    assert PropLines(Render(entries)) == ls;
    forall i | 0 <= i < |entries|
      ensures Pieces(ls)[i] == [entries[i].0, entries[i].1]
    {
      SplitAtFirstUnique(entries[i].0, '=', entries[i].1);
    }
  }

  /** The `k=v` rendering of map `m` with its keys listed in `keys`. */
  function RenderMap(m: map<string, string>, keys: seq<string>): string
    requires forall k :: k in keys ==> k in m
  {
    Render(seq(|keys|, i requires 0 <= i < |keys| => (keys[i], m[keys[i]])))
  }

  /** The last position at or after `from` where `k` sits in `keys`. */
  lemma {:induction false} LastIndex(keys: seq<string>, k: string, from: nat) returns (r: nat)
    requires from < |keys| && keys[from] == k
    ensures from <= r < |keys| && keys[r] == k
    ensures forall j :: r < j < |keys| ==> keys[j] != k
    decreases |keys| - from
  {
    if j :| from < j < |keys| && keys[j] == k {
      r := LastIndex(keys, k, j);
    } else {
      r := from;
    }
  }

  /** `dict()` of the pairs `[k, m[k]]`, for `k` running over a listing of the
      keys of `m` (repeats allowed), is `m` itself. */
  lemma DictOfListing(m: map<string, string>, keys: seq<string>, items: seq<seq<string>>)
    requires forall k :: k in m <==> k in keys
    requires |items| == |keys|
    requires forall i :: 0 <= i < |items| ==> items[i] == [keys[i], m[keys[i]]]
    ensures Dict(items) == Ok(m)
  {
    assert AllPairs(items);
    DictKeys(items);
    var r := Dict(items).value;
    forall k | k in m
      ensures k in r && r[k] == m[k]
    {
      var i :| 0 <= i < |keys| && keys[i] == k;
      var last := LastIndex(keys, k, i);
      DictLastWins(items, last);
    }
    forall k | k in r
      ensures k in m
    {
      var i :| 0 <= i < |items| && items[i][0] == k;
      assert keys[i] == k;
    }
    assert r == m;
  }

  /** Round trip: a connector config whose keys and values are renderable,
      written out as `k=v` lines in any key order, parses back to itself. */
  lemma RoundTrip(m: map<string, string>, keys: seq<string>)
    requires forall k :: k in m <==> k in keys
    requires forall k :: k in m ==> RenderableKey(k) && RenderableValue(m[k])
    ensures ParseProps(RenderMap(m, keys)) == Ok(m)
  {
    var entries := seq(|keys|, i requires 0 <= i < |keys| => (keys[i], m[keys[i]]));
    assert RenderMap(m, keys) == Render(entries);
    RenderParse(entries);
    DictOfListing(m, keys, Pieces(EntryLines(entries)));
  }
}
