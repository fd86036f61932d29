/**
 * The `merge` command of src/main.rs: load every regular file the directory
 * walk yields, concatenate their entries, optionally sort them by term, and
 * emit one two-field record per entry.
 */
module Merge {

  import opened Wrappers
  import opened Serde
  import opened Term
  import opened Lexicographic

  /**
   * What the directory walk yields: an error, or an entry with its
   * file-type flag and path. For a file, `contents` is what opening and
   * parsing it gave; the walk and the file system are outside the model.
   */
  datatype WalkEntry =
    | WalkError
    | Found(isFile: bool, path: string, contents: Result<Value, ReadError>)

  datatype Source = Source(path: string, contents: Result<Value, ReadError>)

  /** `filter_map(|e| e.ok()).filter(|e| e.file_type().is_file())`. */
  function Sources(walk: seq<WalkEntry>): seq<Source>
  {
    if walk == [] then []
    else
      var init := Sources(walk[..|walk| - 1]);
      var e := walk[|walk| - 1];
      if e.Found? && e.isFile then init + [Source(e.path, e.contents)] else init
  }

  /**
   * Errored entries and non-files contribute nothing, a file contributes
   * itself, and the walk's order is kept.
   */
  lemma {:induction false} SourcesSpec(a: seq<WalkEntry>, b: seq<WalkEntry>)
    ensures Sources(a + b) == Sources(a) + Sources(b)
    ensures Sources([WalkError]) == []
    ensures forall p, c :: Sources([Found(false, p, c)]) == []
    ensures forall p, c :: Sources([Found(true, p, c)]) == [Source(p, c)]
    decreases |b|
  {
    if b != [] {
      var b' := b[..|b| - 1];
      SourcesSpec(a, b');
      assert (a + b)[..|a + b| - 1] == a + b';
    } else {
      assert a + b == a;
    }
  }

  /** The entries of the dictionaries, one dictionary after the other. */
  function Flatten(dicts: seq<Dictionary>): seq<Entry>
  {
    if dicts == [] then []
    else Flatten(dicts[..|dicts| - 1]) + dicts[|dicts| - 1].terms
  }

  /** The number of entries over all dictionaries. */
  function TermCount(dicts: seq<Dictionary>): nat
  {
    if dicts == [] then 0 else |dicts[0].terms| + TermCount(dicts[1..])
  }

  /** Flattening concatenates and neither drops, invents nor merges entries. */
  lemma {:induction false} FlattenSpec(dicts: seq<Dictionary>)
    ensures |Flatten(dicts)| == TermCount(dicts)
    ensures forall e :: e in Flatten(dicts) <==> exists i :: 0 <= i < |dicts| && e in dicts[i].terms
  {
    if dicts != [] {
      var init := dicts[..|dicts| - 1];
      var last := dicts[|dicts| - 1];
      FlattenSpec(init);
      TermCountSnoc(init, last);
      assert dicts == init + [last];
      forall e | e in Flatten(dicts) ensures exists i :: 0 <= i < |dicts| && e in dicts[i].terms {
        if e !in last.terms {
          var i :| 0 <= i < |init| && e in init[i].terms;
          assert dicts[i] == init[i];
        }
      }
      forall e | (exists i :: 0 <= i < |dicts| && e in dicts[i].terms) ensures e in Flatten(dicts) {
        var i :| 0 <= i < |dicts| && e in dicts[i].terms;
        if i < |init| {
          assert init[i] == dicts[i];
        }
      }
    }
  }

  lemma {:induction false} TermCountSnoc(dicts: seq<Dictionary>, d: Dictionary)
    ensures TermCount(dicts + [d]) == TermCount(dicts) + |d.terms|
  {
    if dicts != [] {
      assert (dicts + [d])[1..] == dicts[1..] + [d];
      TermCountSnoc(dicts[1..], d);
    }
  }

  // ---------------------------------------------------------------------
  // Loading

  /** `d` is a result `Dictionary::from_file` may give for source `s`. */
  ghost predicate Loads(s: Source, d: Dictionary)
  {
    var l := Load(s.path, s.contents);
    l.Ok? && d.name == l.value.0 && ListsEntries(d.terms, l.value.1)
  }

  /** Source `i` is the first that fails to load. */
  ghost predicate FirstFailing(sources: seq<Source>, i: int)
  {
    && 0 <= i < |sources|
    && Load(sources[i].path, sources[i].contents).Err?
    && forall j :: 0 <= j < i ==> Load(sources[j].path, sources[j].contents).Ok?
  }

  /**
   * The `flat_map` over the sources: each is loaded in turn and its entries
   * appended; the first failure (the `unwrap`) ends the whole run.
   */
  method LoadAll(sources: seq<Source>) returns (r: Result<seq<Entry>, Failure>, ghost dicts: seq<Dictionary>)
    ensures r.Ok? <==> forall i :: 0 <= i < |sources| ==> Load(sources[i].path, sources[i].contents).Ok?
    ensures r.Err? ==> exists i :: FirstFailing(sources, i) && r.error == Load(sources[i].path, sources[i].contents).error
    ensures r.Ok? ==>
      && |dicts| == |sources|
      && (forall i :: 0 <= i < |sources| ==> Loads(sources[i], dicts[i]))
      && r.value == Flatten(dicts)
  {
    var terms: seq<Entry> := [];
    dicts := [];
    var i := 0;
    while i < |sources|
      invariant 0 <= i <= |sources|
      invariant |dicts| == i
      invariant forall j :: 0 <= j < i ==> Loads(sources[j], dicts[j])
      invariant terms == Flatten(dicts)
    {
      var d := FromFile(sources[i].path, sources[i].contents);
      if d.Err? {
        assert FirstFailing(sources, i);
        return Err(d.error), dicts;
      }
      assert (dicts + [d.value])[..i] == dicts;
      dicts := dicts + [d.value];
      terms := terms + d.value.terms;
      i := i + 1;
    }
    r := Ok(terms);
  }

  // ---------------------------------------------------------------------
  // Sorting

  /** Terms are non-decreasing in byte order. */
  predicate SortedByTerm(s: seq<Entry>)
  {
    forall i, j :: 0 <= i < j < |s| ==> Le(s[i].term, s[j].term)
  }

  /** The position of a smallest term at or after `from`. */
  method MinFrom(a: array<Entry>, from: nat) returns (m: nat)
    requires from < a.Length
    ensures from <= m < a.Length
    ensures forall k :: from <= k < a.Length ==> Le(a[m].term, a[k].term)
  {
    m := from;
    CompareEqual(a[m].term, a[m].term);
    var j := from + 1;
    while j < a.Length
      invariant from <= m < j <= a.Length
      invariant forall k :: from <= k < j ==> Le(a[m].term, a[k].term)
    {
      if Compare(a[j].term, a[m].term) == Less {
        forall k | from <= k < j ensures Le(a[j].term, a[k].term) {
          LeTransitive(a[j].term, a[m].term, a[k].term);
        }
        CompareEqual(a[j].term, a[j].term);
        m := j;
      } else {
        CompareSwap(a[j].term, a[m].term);
      }
      j := j + 1;
    }
  }

  /**
   * `sort_unstable_by(|a, b| a.term.cmp(&b.term))`: afterwards the terms are
   * in order and the entries are a permutation of those before. Nothing is
   * promised about the relative order of entries with equal terms.
   */
  method SortByTerm(a: array<Entry>)
    modifies a
    ensures SortedByTerm(a[..])
    ensures multiset(a[..]) == old(multiset(a[..]))
  {
    var i := 0;
    while i < a.Length
      invariant 0 <= i <= a.Length
      invariant forall p, q :: 0 <= p < q < i ==> Le(a[p].term, a[q].term)
      invariant forall p, q :: 0 <= p < i <= q < a.Length ==> Le(a[p].term, a[q].term)
      invariant multiset(a[..]) == old(multiset(a[..]))
    {
      var m := MinFrom(a, i);
      a[i], a[m] := a[m], a[i];
      i := i + 1;
    }
  }

  /** The term column of a list of entries. */
  function Terms(s: seq<Entry>): seq<string>
  {
    seq(|s|, i requires 0 <= i < |s| => s[i].term)
  }

  /**
   * Taking the head of `x` and a matching element of `y` out of two
   * permutations of each other leaves permutations of each other.
   */
  lemma PermutationRest<T>(x: seq<T>, y: seq<T>, k: nat)
    requires multiset(x) == multiset(y) && x != [] && k < |y| && y[k] == x[0]
    ensures multiset(x[1..]) == multiset(y[..k] + y[k + 1..])
  {
    var rest := y[..k] + y[k + 1..];
    assert x == [x[0]] + x[1..];
    assert y == y[..k] + [y[k]] + y[k + 1..];
    assert multiset(y) == multiset(rest) + multiset{y[k]};
    assert forall e :: multiset(x[1..])[e] == multiset(x)[e] - multiset{x[0]}[e] == multiset(rest)[e];
  }

  lemma PermutationTails<T>(x: seq<T>, y: seq<T>)
    requires multiset(x) == multiset(y) && x != [] && y != [] && y[0] == x[0]
    ensures multiset(x[1..]) == multiset(y[1..])
  {
    PermutationRest(x, y, 0);
    assert y[..0] + y[1..] == y[1..];
  }

  /** Permuting entries permutes their terms. */
  lemma {:induction false} TermsPermutation(x: seq<Entry>, y: seq<Entry>)
    requires multiset(x) == multiset(y)
    ensures multiset(Terms(x)) == multiset(Terms(y))
    decreases |x|
  {
    if x == [] {
      assert |multiset(y)| == 0;
    } else {
      assert x[0] in multiset(y);
      var k :| 0 <= k < |y| && y[k] == x[0];
      var rest := y[..k] + y[k + 1..];
      PermutationRest(x, y, k);
      TermsPermutation(x[1..], rest);
      assert Terms(x) == [x[0].term] + Terms(x[1..]);
      assert Terms(y) == Terms(y[..k]) + [y[k].term] + Terms(y[k + 1..]);
      assert Terms(rest) == Terms(y[..k]) + Terms(y[k + 1..]);
    }
  }

  /** Two sorted arrangements of the same strings are the same sequence. */
  lemma {:induction false} SortedStringsUnique(s: seq<string>, t: seq<string>)
    requires forall i, j :: 0 <= i < j < |s| ==> Le(s[i], s[j])
    requires forall i, j :: 0 <= i < j < |t| ==> Le(t[i], t[j])
    requires multiset(s) == multiset(t)
    ensures s == t
    decreases |s|
  {
    assert |s| == |multiset(s)| == |multiset(t)| == |t|;
    if s != [] {
      assert s[0] in multiset(t) && t[0] in multiset(s);
      var k :| 0 <= k < |t| && t[k] == s[0];
      var j :| 0 <= j < |s| && s[j] == t[0];
      if k != 0 && j != 0 {
        LeAntisymmetric(s[0], t[0]);
      }
      assert s[0] == t[0];
      PermutationTails(s, t);
      SortedStringsUnique(s[1..], t[1..]);
      assert s == [s[0]] + s[1..] && t == [t[0]] + t[1..];
    }
  }

  /**
   * Sorting is unstable, yet its term column is fully determined: any two
   * sorted permutations of the same entries agree term by term and can
   * differ only in how entries with equal terms are arranged.
   */
  lemma SortedTermsDetermined(x: seq<Entry>, y: seq<Entry>)
    requires SortedByTerm(x) && SortedByTerm(y) && multiset(x) == multiset(y)
    ensures Terms(x) == Terms(y)
  {
    TermsPermutation(x, y);
    SortedStringsUnique(Terms(x), Terms(y));
  }

  // ---------------------------------------------------------------------
  // Emitting

  /** The `for` loop feeding `wtr.serialize`: one record per entry, in order, no header. */
  method EmitRecords(terms: seq<Entry>) returns (records: seq<seq<string>>)
    ensures |records| == |terms|
    ensures forall i :: 0 <= i < |terms| ==> |records[i]| == 2 && records[i] == [terms[i].term, Render(terms[i].definitions)]
  {
    records := [];
    for i := 0 to |terms|
      invariant |records| == i
      invariant forall j :: 0 <= j < i ==> records[j] == Record(terms[j])
    {
      records := records + [Record(terms[i])];
    }
  }

  // ---------------------------------------------------------------------
  // The command

  /**
   * `glossary merge <root> [--sort]`, given what the walk of `root` yields.
   * `dicts` are the loaded dictionaries and `ordered` the entries in the
   * order their records were emitted.
   */
  method Run(walk: seq<WalkEntry>, sort: bool)
    returns (r: Result<seq<seq<string>>, Failure>, ghost dicts: seq<Dictionary>, ghost ordered: seq<Entry>)
    ensures r.Ok? <==> forall s :: s in Sources(walk) ==> Load(s.path, s.contents).Ok?
    ensures r.Err? ==>
      exists i :: FirstFailing(Sources(walk), i) && r.error == Load(Sources(walk)[i].path, Sources(walk)[i].contents).error
    ensures r.Ok? ==>
      && |dicts| == |Sources(walk)|
      && (forall i :: 0 <= i < |dicts| ==> Loads(Sources(walk)[i], dicts[i]))
      && (!sort ==> ordered == Flatten(dicts))
      && (sort ==> SortedByTerm(ordered) && multiset(ordered) == multiset(Flatten(dicts)))
      && |r.value| == |ordered|
      && forall i :: 0 <= i < |ordered| ==> r.value[i] == [ordered[i].term, Render(ordered[i].definitions)]
  {
    var sources := Sources(walk);
    var loaded;
    loaded, dicts := LoadAll(sources);
    if loaded.Err? {
      return Err(loaded.error), dicts, [];
    }
    var terms := loaded.value;
    var a := new Entry[|terms|](i requires 0 <= i < |terms| => terms[i]);
    assert a[..] == terms;
    if sort {
      SortByTerm(a);
    }
    ordered := a[..];
    var records := EmitRecords(a[..]);
    r := Ok(records);
  }
}
