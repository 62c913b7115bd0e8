/**
 * The last-write-wins overlay of dotenv files (`loadKeyValuesHelper`).
 * File contents arrive as sequences of lines; a missing file is absent from
 * the directory and reads as no lines.
 */
module Overlay {
  import opened JsString

  /**
   * The `keyValues` object: the stored line per key, and the keys in the order
   * they were first assigned (the order `Object.values` enumerates them in).
   */
  datatype KeyValues = KeyValues(values: map<string, string>, order: seq<string>)

  /** The object `{}` the overlay starts from. */
  const EMPTY := KeyValues(map[], [])

  /** A JavaScript object's own keys: each listed once, and exactly the keys present. */
  ghost predicate WellFormed(kv: KeyValues) {
    && (forall i, j :: 0 <= i < j < |kv.order| ==> kv.order[i] != kv.order[j])
    && (forall k :: k in kv.values <==> k in kv.order)
  }

  /** Moreover every stored line is one that carries its key. */
  ghost predicate Valid(kv: KeyValues) {
    WellFormed(kv) && forall k :: k in kv.values ==> Carries(kv.values[k], k)
  }

  /** `line.split('=').length > 1`: the line takes part in the overlay. */
  predicate Admitted(line: string) {
    |Split(line, '=')| > 1
  }

  /** `line.split('=')[0]`: the key a line assigns. */
  function KeyOf(line: string): string {
    Split(line, '=')[0]
  }

  /** The line assigns `key`. */
  predicate Carries(line: string, key: string) {
    Admitted(line) && KeyOf(line) == key
  }

  /** `keyValues[key] = value` on an object whose key may already be present. */
  function Put(kv: KeyValues, key: string, value: string): (r: KeyValues)
    ensures WellFormed(kv) ==> WellFormed(r)
    ensures key in r.values && r.values[key] == value
    ensures forall k :: k != key && k in kv.values ==> k in r.values && r.values[k] == kv.values[k]
    ensures r.values.Keys == kv.values.Keys + {key}
    ensures r.order == if key in kv.values then kv.order else kv.order + [key]
  {
    KeyValues(kv.values[key := value], if key in kv.values then kv.order else kv.order + [key])
  }

  /** The `'line'` handler: an admitted line is stored whole under its key. */
  function Step(kv: KeyValues, line: string): (r: KeyValues)
    ensures WellFormed(kv) ==> WellFormed(r)
    ensures !Admitted(line) ==> r == kv
    ensures Admitted(line) ==> KeyOf(line) in r.values && r.values[KeyOf(line)] == line
  {
    if Admitted(line) then Put(kv, KeyOf(line), line) else kv
  }

  /** The handler applied to every line in turn. */
  function Fold(kv: KeyValues, lines: seq<string>): KeyValues
    decreases |lines|
  {
    if lines == [] then kv else Step(Fold(kv, lines[..|lines| - 1]), lines[|lines| - 1])
  }

  /** The lines of a file; a file that does not exist (`ENOENT`) has none. */
  function FileLines(dir: map<string, seq<string>>, name: string): seq<string> {
    if name in dir then dir[name] else []
  }

  /** The lines of the cascade, file after file. */
  function CascadeLines(dir: map<string, seq<string>>, names: seq<string>): seq<string>
    decreases |names|
  {
    if names == [] then [] else FileLines(dir, names[0]) + CascadeLines(dir, names[1..])
  }

  /** The object the cascade leaves behind. */
  function Merge(dir: map<string, seq<string>>, names: seq<string>): KeyValues {
    Fold(EMPTY, CascadeLines(dir, names))
  }

  /**
   * `loadKeyValuesHelper`: read the first file line by line into `keyValues`,
   * then go on with the remaining names, or hand the object over when none remain.
   */
  method LoadKeyValuesHelper(dir: map<string, seq<string>>, filenames: seq<string>, keyValues: KeyValues)
    returns (loaded: KeyValues)
    requires filenames != []
    ensures loaded == Fold(keyValues, CascadeLines(dir, filenames))
    decreases |filenames|
  {
    var filenamesDup := filenames;
    var filename := filenamesDup[0];
    filenamesDup := filenamesDup[1..];
    var lines := if filename in dir then dir[filename] else [];
    var values, order := keyValues.values, keyValues.order;
    var i := 0;
    while i < |lines|
      invariant 0 <= i <= |lines|
      invariant KeyValues(values, order) == Fold(keyValues, lines[..i])
    {
      var line := lines[i];
      var keyValue := Split(line, '=');
      if |keyValue| > 1 {
        var key := keyValue[0];
        if key !in values {
          order := order + [key];
        }
        values := values[key := line];
      }
      assert lines[..i + 1][..i] == lines[..i];
      i := i + 1;
    }
    assert lines[..i] == lines;
    var current := KeyValues(values, order);
    assert CascadeLines(dir, filenames) == lines + CascadeLines(dir, filenamesDup);
    if |filenamesDup| == 0 {
      loaded := current;
      assert lines + CascadeLines(dir, filenamesDup) == lines;
    } else {
      loaded := LoadKeyValuesHelper(dir, filenamesDup, current);
      FoldAppend(keyValues, lines, CascadeLines(dir, filenamesDup));
    }
  }

  /** `loadKeyValues`: the overlay of the whole cascade, starting from `{}`. */
  method LoadKeyValues(dir: map<string, seq<string>>, filenames: seq<string>) returns (loaded: KeyValues)
    requires filenames != []
    ensures loaded == Merge(dir, filenames)
    ensures Valid(loaded)
  {
    loaded := LoadKeyValuesHelper(dir, filenames, EMPTY);
    FoldValid(EMPTY, CascadeLines(dir, filenames));
  }

  /** Overlaying two runs of lines one after the other is overlaying their concatenation. */
  lemma {:induction false} FoldAppend(kv: KeyValues, a: seq<string>, b: seq<string>)
    ensures Fold(kv, a + b) == Fold(Fold(kv, a), b)
    decreases |b|
  {
    if b == [] {
      assert a + b == a;
    } else {
      var b' := b[..|b| - 1];
      assert (a + b)[..|a + b| - 1] == a + b';
      assert (a + b)[|a + b| - 1] == b[|b| - 1];
      FoldAppend(kv, a, b');
    }
  }

  /** The cascade of a concatenation of name lists is the concatenation of the cascades. */
  lemma {:induction false} CascadeAppend(dir: map<string, seq<string>>, a: seq<string>, b: seq<string>)
    ensures CascadeLines(dir, a + b) == CascadeLines(dir, a) + CascadeLines(dir, b)
    decreases |a|
  {
    if a == [] {
      assert a + b == b;
    } else {
      assert (a + b)[0] == a[0] && (a + b)[1..] == a[1..] + b;
      CascadeAppend(dir, a[1..], b);
    }
  }

  /** The cascade only looks at the files it names. */
  lemma {:induction false} CascadeAgree(dir: map<string, seq<string>>, dir': map<string, seq<string>>, names: seq<string>)
    requires forall i :: 0 <= i < |names| ==> FileLines(dir, names[i]) == FileLines(dir', names[i])
    ensures CascadeLines(dir, names) == CascadeLines(dir', names)
    decreases |names|
  {
    if names != [] {
      assert FileLines(dir, names[0]) == FileLines(dir', names[0]);
      forall i | 0 <= i < |names[1..]|
        ensures FileLines(dir, names[1..][i]) == FileLines(dir', names[1..][i])
      {
        assert names[1..][i] == names[i + 1];
      }
      CascadeAgree(dir, dir', names[1..]);
    }
  }

  /** A file that does not exist contributes nothing: dropping it from the list changes nothing. */
  lemma MissingFileIgnored(dir: map<string, seq<string>>, a: seq<string>, name: string, b: seq<string>)
    requires name !in dir
    ensures Merge(dir, a + [name] + b) == Merge(dir, a + b)
  {
    CascadeAppend(dir, a, [name] + b);
    CascadeAppend(dir, a, b);
    assert a + [name] + b == a + ([name] + b);
    assert CascadeLines(dir, [name] + b) == CascadeLines(dir, b) by {
      assert ([name] + b)[1..] == b;
    }
  }

  /** A line without `=` never affects the result, wherever it stands. */
  lemma LineWithoutEqualsIgnored(kv: KeyValues, a: seq<string>, line: string, b: seq<string>)
    requires '=' !in line
    ensures Fold(kv, a + [line] + b) == Fold(kv, a + b)
  {
    SplitHead(line, '=');
    FoldAppend(kv, a + [line], b);
    FoldAppend(kv, a, b);
    assert (a + [line])[..|a|] == a;
  }

  /**
   * What `Carries` means: the key is the text before the first `=`, which may be
   * empty; the stored line is the whole line, whatever follows.
   */
  lemma CarriesMeans(line: string, key: string)
    ensures Carries(line, key) <==>
      |key| < |line| && line[..|key|] == key && line[|key|] == '=' && '=' !in key
  {
    SplitHead(line, '=');
    if |key| < |line| && line[..|key|] == key && line[|key|] == '=' && '=' !in key {
      var t := line[|key|..];
      assert line == key + t;
      SplitAppend(key, t, '=');
      assert t == [t[0]] + t[1..] && t[0] == '=';
      assert Split(t, '=') == [""] + Split(t[1..], '=');
      assert key + "" == key;
    }
  }

  /** The overlay keeps the object well formed and stores only lines that carry their keys. */
  lemma {:induction false} FoldValid(kv: KeyValues, lines: seq<string>)
    requires Valid(kv)
    ensures Valid(Fold(kv, lines))
    decreases |lines|
  {
    if lines != [] {
      FoldValid(kv, lines[..|lines| - 1]);
    }
  }

  /** A key is present exactly when some line carries it. */
  lemma {:induction false} MergeKeys(lines: seq<string>, k: string)
    ensures k in Fold(EMPTY, lines).values <==> exists i :: 0 <= i < |lines| && Carries(lines[i], k)
    decreases |lines|
  {
    if lines != [] {
      var init := lines[..|lines| - 1];
      MergeKeys(init, k);
      if exists i :: 0 <= i < |init| && Carries(init[i], k) {
        var i :| 0 <= i < |init| && Carries(init[i], k);
        assert lines[i] == init[i];
      }
      if exists i :: 0 <= i < |lines| && Carries(lines[i], k) {
        var i :| 0 <= i < |lines| && Carries(lines[i], k);
        if i < |init| {
          assert init[i] == lines[i];
        }
      }
    }
  }

  /** Last write wins: the stored line for a key is the last line that carries it. */
  lemma {:induction false} LastWriteWins(lines: seq<string>, k: string, i: nat)
    requires i < |lines| && Carries(lines[i], k)
    requires forall j :: i < j < |lines| ==> !Carries(lines[j], k)
    ensures k in Fold(EMPTY, lines).values && Fold(EMPTY, lines).values[k] == lines[i]
    decreases |lines|
  {
    var init := lines[..|lines| - 1];
    if i < |lines| - 1 {
      assert init[i] == lines[i];
      forall j | i < j < |init|
        ensures !Carries(init[j], k)
      {
        assert init[j] == lines[j];
      }
      LastWriteWins(init, k, i);
    }
  }

  /**
   * Keys are listed in order of first appearance: when `order[p]` comes before
   * `order[q]`, some line carrying `order[p]` stands before every line carrying `order[q]`.
   */
  lemma {:induction false} FirstAppearanceOrder(lines: seq<string>, p: nat, q: nat, i: nat)
    requires p < q < |Fold(EMPTY, lines).order|
    requires i < |lines| && Carries(lines[i], Fold(EMPTY, lines).order[q])
    ensures exists j :: 0 <= j < i && Carries(lines[j], Fold(EMPTY, lines).order[p])
    decreases |lines|
  {
    var init := lines[..|lines| - 1];
    var before := Fold(EMPTY, init);
    var order := Fold(EMPTY, lines).order;
    FoldValid(EMPTY, init);
    assert order[..|before.order|] == before.order;
    assert p < |before.order|;
    MergeKeys(init, order[p]);
    var j :| 0 <= j < |init| && Carries(init[j], order[p]);
    assert lines[j] == init[j];
    if q < |before.order| && i < |init| {
      assert init[i] == lines[i];
      FirstAppearanceOrder(init, p, q, i);
      var j' :| 0 <= j' < i && Carries(init[j'], order[p]);
      assert lines[j'] == init[j'];
    } else if i < |init| {
      assert init[i] == lines[i];
      MergeKeys(init, order[q]);
    }
  }
}
