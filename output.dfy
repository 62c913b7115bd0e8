/** Writing the merged object back as a dotenv file (`Object.values(...).forEach(write)`). */
module Output {
  import opened Overlay

  /** The stored lines, one per key, in the object's key order. */
  function OutputLines(kv: KeyValues): (lines: seq<string>)
    requires WellFormed(kv)
    ensures |lines| == |kv.order|
    ensures forall p :: 0 <= p < |lines| ==> lines[p] == kv.values[kv.order[p]]
  {
    seq(|kv.order|, p requires 0 <= p < |kv.order| => kv.values[kv.order[p]])
  }

  /** The text of a sequence of writes to one stream. */
  function Concat(chunks: seq<string>): string
    decreases |chunks|
  {
    if chunks == [] then "" else Concat(chunks[..|chunks| - 1]) + chunks[|chunks| - 1]
  }

  /** Each write appends: the text written up to any point is a prefix of the final text. */
  lemma {:induction false} ConcatPrefix(chunks: seq<string>, i: nat)
    requires i <= |chunks|
    ensures Concat(chunks[..i]) <= Concat(chunks)
    decreases |chunks|
  {
    if i < |chunks| {
      var init := chunks[..|chunks| - 1];
      assert chunks[..i] == init[..i];
      ConcatPrefix(init, i);
      assert Concat(init) <= Concat(chunks);
    } else {
      assert chunks[..i] == chunks;
    }
  }

  /** Writing one run of chunks and then another gives the concatenated text. */
  lemma {:induction false} ConcatAppend(a: seq<string>, b: seq<string>)
    ensures Concat(a + b) == Concat(a) + Concat(b)
    decreases |b|
  {
    if b == [] {
      assert a + b == a;
    } else {
      var b' := b[..|b| - 1];
      assert (a + b)[..|a + b| - 1] == a + b';
      ConcatAppend(a, b');
    }
  }

  /** The writes that put the object `kv` into a file: one per key, in key order, each line then `eol`. */
  ghost predicate WritesOf(kv: KeyValues, eol: string, writes: seq<string>) {
    && WellFormed(kv)
    && |writes| == |kv.order| == |kv.values|
    && forall p :: 0 <= p < |writes| ==> writes[p] == OutputLines(kv)[p] + eol
  }

  /**
   * The `forEach` at the end of the merge: one write per distinct key, in key
   * order, each the stored line followed by the platform's end-of-line string.
   */
  method WriteValues(kv: KeyValues, eol: string) returns (writes: seq<string>)
    requires WellFormed(kv)
    ensures WritesOf(kv, eol, writes)
  {
    writes := [];
    var p := 0;
    while p < |kv.order|
      invariant 0 <= p <= |kv.order|
      invariant |writes| == p
      invariant forall q :: 0 <= q < p ==> writes[q] == kv.values[kv.order[q]] + eol
    {
      writes := writes + [kv.values[kv.order[p]] + eol];
      p := p + 1;
    }
    OrderCounts(kv);
  }

  /** Each key is listed once, so there are as many listed keys as keys. */
  lemma OrderCounts(kv: KeyValues)
    requires WellFormed(kv)
    ensures |kv.order| == |kv.values|
  {
    DistinctCard(kv.order);
    assert kv.values.Keys == set k | k in kv.order;
  }

  lemma {:induction false} DistinctCard(s: seq<string>)
    requires forall i, j :: 0 <= i < j < |s| ==> s[i] != s[j]
    ensures |set k | k in s| == |s|
    decreases |s|
  {
    if s != [] {
      var init := s[..|s| - 1];
      DistinctCard(init);
      assert (set k | k in s) == (set k | k in init) + {s[|s| - 1]};
      assert s[|s| - 1] !in init;
    }
  }

  /** The first `n` keys of an object with everything else removed. */
  function Prefix(kv: KeyValues, n: nat): KeyValues
    requires n <= |kv.order| && WellFormed(kv)
  {
    KeyValues(map k | k in kv.order[..n] :: kv.values[k], kv.order[..n])
  }

  /**
   * Reading the written file once more reproduces the object: overlaying the
   * output lines rebuilds the same stored lines in the same key order.
   */
  lemma ReloadOutput(kv: KeyValues)
    requires Valid(kv)
    ensures Fold(EMPTY, OutputLines(kv)) == kv
  {
    ReloadPrefix(kv, |kv.order|);
    assert OutputLines(kv)[..|kv.order|] == OutputLines(kv);
    PrefixAll(kv);
  }

  /** The prefix of all keys is the whole object. */
  lemma PrefixAll(kv: KeyValues)
    requires WellFormed(kv)
    ensures Prefix(kv, |kv.order|) == kv
  {
    assert kv.order[..|kv.order|] == kv.order;
    var whole := Prefix(kv, |kv.order|);
    assert whole.values.Keys == kv.values.Keys;
    assert whole.values == kv.values;
  }

  /** The file the cascade produces, read once more on its own, gives the same object. */
  lemma MergeReloads(dir: map<string, seq<string>>, names: seq<string>)
    ensures WellFormed(Merge(dir, names))
    ensures Fold(EMPTY, OutputLines(Merge(dir, names))) == Merge(dir, names)
  {
    FoldValid(EMPTY, CascadeLines(dir, names));
    ReloadOutput(Merge(dir, names));
  }

  lemma {:induction false} ReloadPrefix(kv: KeyValues, n: nat)
    requires Valid(kv) && n <= |kv.order|
    ensures Fold(EMPTY, OutputLines(kv)[..n]) == Prefix(kv, n)
    decreases n
  {
    var lines := OutputLines(kv);
    if n == 0 {
      assert lines[..0] == [];
      assert Prefix(kv, 0).values == map[];
    } else {
      ReloadPrefix(kv, n - 1);
      var k := kv.order[n - 1];
      assert lines[..n][..n - 1] == lines[..n - 1] && lines[..n][n - 1] == kv.values[k];
      assert Fold(EMPTY, lines[..n]) == Step(Prefix(kv, n - 1), kv.values[k]);
      assert Carries(kv.values[k], k);
      PrefixStep(kv, n);
    }
  }

  /** Growing the prefix by one key stores that key's line as a new key. */
  lemma PrefixStep(kv: KeyValues, n: nat)
    requires WellFormed(kv) && 0 < n <= |kv.order|
    ensures kv.order[n - 1] !in Prefix(kv, n - 1).values
    ensures Prefix(kv, n) == Put(Prefix(kv, n - 1), kv.order[n - 1], kv.values[kv.order[n - 1]])
  {
    var k := kv.order[n - 1];
    assert kv.order[..n] == kv.order[..n - 1] + [k];
    assert k !in kv.order[..n - 1];
    assert Prefix(kv, n).values == Prefix(kv, n - 1).values[k := kv.values[k]];
  }
}
