/**
 * src/term.rs: the decoder the program actually runs. A definition field is
 * a string or a sequence of strings; a dictionary file is a map from terms
 * to such fields, turned into one entry per term.
 */
module Term {

  import opened Wrappers
  import opened Serde
  import Text
  import Paths

  datatype Definitions = Definitions(items: seq<string>)

  datatype Entry = Entry(term: string, definitions: Definitions)

  datatype Dictionary = Dictionary(name: string, terms: seq<Entry>)

  const EXPECT_STRING_OR_SEQ := "string or sequence of strings"
  const SEPARATOR := "; "

  // ---------------------------------------------------------------------
  // string_or_seq_string

  /** Element `i` is the first that is not a string. */
  ghost predicate FirstNonString(items: seq<Value>, i: int)
  {
    0 <= i < |items| && !items[i].Str? && forall j :: 0 <= j < i ==> items[j].Str?
  }

  /** `Vec<String>`: every element must be a string; the first that is not ends the visit. */
  function DecodeStrings(items: seq<Value>): (r: Result<seq<string>, DecodeError>)
    ensures r.Ok? <==> forall i :: 0 <= i < |items| ==> items[i].Str?
    ensures r.Ok? ==> |r.value| == |items| && forall i :: 0 <= i < |items| ==> r.value[i] == items[i].s
    ensures r.Err? ==> exists i :: FirstNonString(items, i) && r.error == InvalidType(UnexpectedOf(items[i]), EXPECT_STRING)
  {
    if items == [] then Ok([])
    else match DecodeString(items[0])
      case Err(e) =>
        assert FirstNonString(items, 0);
        Err(e)
      case Ok(s) =>
        match DecodeStrings(items[1..])
        case Err(e) =>
          ghost var i :| FirstNonString(items[1..], i) && e == InvalidType(UnexpectedOf(items[1..][i]), EXPECT_STRING);
          assert FirstNonString(items, i + 1) by {
            forall j | 0 < j < i + 1 ensures items[j].Str? {
              assert items[j] == items[1..][j - 1];
            }
          }
          Err(e)
        case Ok(ss) => Ok([s] + ss)
  }

  /** `string_or_seq_string`: a string, or a sequence of strings; nothing else. */
  function DecodeDefinitions(v: Value): Result<Definitions, DecodeError>
  {
    match v
    case Str(s) => Ok(Definitions([s]))
    case Seq(items) =>
      (match DecodeStrings(items)
       case Ok(ss) => Ok(Definitions(ss))
       case Err(e) => Err(e))
    case _ => Err(InvalidType(UnexpectedOf(v), EXPECT_STRING_OR_SEQ))
  }

  /** Which field values are accepted, and what they decode to. */
  lemma DecodeDefinitionsSpec(v: Value)
    ensures DecodeDefinitions(v).Ok? <==> v.Str? || (v.Seq? && forall i :: 0 <= i < |v.items| ==> v.items[i].Str?)
    ensures v.Str? ==> DecodeDefinitions(v) == Ok(Definitions([v.s]))
    ensures v.Seq? && DecodeDefinitions(v).Ok? ==>
      var ss := DecodeDefinitions(v).value.items;
      |ss| == |v.items| && forall i :: 0 <= i < |ss| ==> ss[i] == v.items[i].s
    ensures v.Seq? && DecodeDefinitions(v).Err? ==>
      exists i :: FirstNonString(v.items, i) && DecodeDefinitions(v).error == InvalidType(UnexpectedOf(v.items[i]), EXPECT_STRING)
    ensures !v.Str? && !v.Seq? ==> DecodeDefinitions(v) == Err(InvalidType(UnexpectedOf(v), EXPECT_STRING_OR_SEQ))
  {
  }

  /** The structured `{def, note}` shape is not accepted by this decoder. */
  lemma StructuredShapeRejected(t: string, n: string)
    ensures DecodeDefinitions(Map([("def", Str(t)), ("note", Str(n))])) ==
            Err(InvalidType(Mapping, EXPECT_STRING_OR_SEQ))
  {
  }

  // ---------------------------------------------------------------------
  // Display and Serialize

  /** `Display for Definitions`. */
  function Render(d: Definitions): string
  {
    Text.Join(d.items, SEPARATOR)
  }

  /** `Serialize for Definitions`: one string scalar. */
  function Serialize(d: Definitions): Value
  {
    Str(Render(d))
  }

  /** The rendered length, and the empty and one-element cases. */
  lemma RenderShape(d: Definitions)
    ensures |d.items| == 0 ==> Render(d) == ""
    ensures |d.items| == 1 ==> Render(d) == d.items[0]
    ensures |d.items| >= 1 ==> |Render(d)| == Text.TotalLength(d.items) + 2 * (|d.items| - 1)
    ensures Serialize(d) == Str(Render(d))
  {
    Text.JoinLength(d.items, SEPARATOR);
  }

  /**
   * Reading back what Serialize wrote gives one definition holding the
   * joined text: exact for a one-element list, lossy for longer ones.
   */
  lemma SerializeReadsBack(d: Definitions)
    ensures DecodeDefinitions(Serialize(d)) == Ok(Definitions([Render(d)]))
    ensures |d.items| == 1 ==> DecodeDefinitions(Serialize(d)) == Ok(d)
  {
    if |d.items| == 1 {
      assert d == Definitions([d.items[0]]);
    }
  }

  // ---------------------------------------------------------------------
  // Entry

  /** `From<(String, Definitions)> for Entry`. */
  function EntryFrom(pair: (string, Definitions)): Entry
  {
    Entry(pair.0, pair.1)
  }

  /** `Serialize for Entry` (derived): the fields in declaration order. */
  function Record(e: Entry): seq<string>
  {
    [e.term, Serialize(e.definitions).s]
  }

  /** A record is exactly two fields: the term, then the rendered definitions. */
  lemma RecordShape(term: string, d: Definitions)
    ensures |Record(EntryFrom((term, d)))| == 2
    ensures Record(EntryFrom((term, d)))[0] == term
    ensures Record(EntryFrom((term, d)))[1] == Render(d)
  {
  }

  // ---------------------------------------------------------------------
  // The entry map of a dictionary file

  /** The keys written in a mapping. */
  ghost function KeysOf(entries: seq<(string, Value)>): set<string>
  {
    set i | 0 <= i < |entries| :: entries[i].0
  }

  /** Entry `i` is the last one written under its key. */
  ghost predicate LastUnderKey(entries: seq<(string, Value)>, i: int)
  {
    0 <= i < |entries| && forall j :: i < j < |entries| ==> entries[j].0 != entries[i].0
  }

  /** Entry `i` holds the first value that is not a definition field. */
  ghost predicate FirstBadValue(entries: seq<(string, Value)>, i: int)
  {
    && 0 <= i < |entries|
    && DecodeDefinitions(entries[i].1).Err?
    && forall j :: 0 <= j < i ==> DecodeDefinitions(entries[j].1).Ok?
  }

  /** `HashMap::deserialize`: values decoded in document order, a repeated key overwriting. */
  function InsertAll(entries: seq<(string, Value)>, acc: map<string, Definitions>): Result<map<string, Definitions>, DecodeError>
  {
    if entries == [] then Ok(acc)
    else match DecodeDefinitions(entries[0].1)
      case Err(e) => Err(e)
      case Ok(d) => InsertAll(entries[1..], acc[entries[0].0 := d])
  }

  /** The `EntryMap` a document decodes to. */
  function DecodeEntryMap(v: Value): Result<map<string, Definitions>, DecodeError>
  {
    match v
    case Map(entries) => InsertAll(entries, map[])
    case _ => Err(InvalidType(UnexpectedOf(v), EXPECT_MAP))
  }

  /**
   * Inserting succeeds iff every value is a definition field; the first bad
   * one is reported; the keys are those written, each holding the value
   * written last under it.
   */
  lemma {:induction false} InsertAllSpec(entries: seq<(string, Value)>, acc: map<string, Definitions>)
    ensures InsertAll(entries, acc).Ok? <==> forall i :: 0 <= i < |entries| ==> DecodeDefinitions(entries[i].1).Ok?
    ensures InsertAll(entries, acc).Err? ==>
      exists i :: FirstBadValue(entries, i) && InsertAll(entries, acc).error == DecodeDefinitions(entries[i].1).error
    ensures InsertAll(entries, acc).Ok? ==>
      var m := InsertAll(entries, acc).value;
      && m.Keys == acc.Keys + KeysOf(entries)
      && (forall i :: LastUnderKey(entries, i) ==> m[entries[i].0] == DecodeDefinitions(entries[i].1).value)
      && (forall k :: k in acc && k !in KeysOf(entries) ==> m[k] == acc[k])
  {
    if entries != [] {
      var k, v := entries[0].0, entries[0].1;
      var rest := entries[1..];
      assert forall j :: 0 < j < |entries| ==> entries[j] == rest[j - 1];
      assert KeysOf(entries) == {k} + KeysOf(rest) by {
        forall x | x in KeysOf(entries) ensures x in {k} + KeysOf(rest) {
          var j :| 0 <= j < |entries| && entries[j].0 == x;
          if j > 0 { assert rest[j - 1].0 == x; }
        }
        forall x | x in KeysOf(rest) ensures x in KeysOf(entries) {
          var j :| 0 <= j < |rest| && rest[j].0 == x;
          assert entries[j + 1].0 == x;
        }
      }
      match DecodeDefinitions(v)
      case Err(e) =>
        assert FirstBadValue(entries, 0);
      case Ok(d) =>
        var acc' := acc[k := d];
        InsertAllSpec(rest, acc');
        if InsertAll(rest, acc').Err? {
          var i :| FirstBadValue(rest, i) && InsertAll(rest, acc').error == DecodeDefinitions(rest[i].1).error;
          assert FirstBadValue(entries, i + 1);
        } else {
          var m := InsertAll(rest, acc').value;
          forall i | LastUnderKey(entries, i)
            ensures m[entries[i].0] == DecodeDefinitions(entries[i].1).value
          {
            if i == 0 {
              assert k !in KeysOf(rest);
            } else {
              assert LastUnderKey(rest, i - 1);
            }
          }
        }
    }
  }

  // ---------------------------------------------------------------------
  // Dictionary::from_file

  /** Why a file could not be read as YAML: the file system or the YAML syntax. */
  datatype ReadError = Unreadable | Malformed

  datatype Failure =
    | Read(reason: ReadError)
    | Decode(error: DecodeError)
      /** `file_stem()` gave nothing and `unwrap` panicked */
    | NoFileStem

  /**
   * Everything `from_file` computes apart from the entry order: the parse
   * outcome of the file (supplied from outside), the decoded entry map, and
   * the stem of the path, in that order.
   */
  function Load(path: string, contents: Result<Value, ReadError>): Result<(string, map<string, Definitions>), Failure>
  {
    if contents.Err? then Err(Read(contents.error))
    else match DecodeEntryMap(contents.value)
      case Err(e) => Err(Decode(e))
      case Ok(m) =>
        match Paths.FileStem(path)
        case None => Err(NoFileStem)
        case Some(name) => Ok((name, m))
  }

  /**
   * `terms` holds one entry per key of `m`, carrying that key's value, in
   * some order.
   */
  ghost predicate ListsEntries(terms: seq<Entry>, m: map<string, Definitions>)
  {
    && |terms| == |m|
    && (forall i :: 0 <= i < |terms| ==> terms[i].term in m && terms[i].definitions == m[terms[i].term])
    && (forall i, j :: 0 <= i < j < |terms| ==> terms[i].term != terms[j].term)
  }

  /** The terms listed, as a set. */
  ghost function TermSet(terms: seq<Entry>): (r: set<string>)
    ensures forall k :: k in r <==> exists i :: 0 <= i < |terms| && terms[i].term == k
  {
    if terms == [] then {}
    else
      var init := terms[..|terms| - 1];
      var r := TermSet(init) + {terms[|terms| - 1].term};
      assert forall i :: 0 <= i < |init| ==> init[i] == terms[i];
      r
  }

  /** Pairwise distinct terms give as many set members as entries. */
  lemma {:induction false} TermSetSize(terms: seq<Entry>)
    requires forall i, j :: 0 <= i < j < |terms| ==> terms[i].term != terms[j].term
    ensures |TermSet(terms)| == |terms|
  {
    if terms != [] {
      var init := terms[..|terms| - 1];
      TermSetSize(init);
      assert terms[|terms| - 1].term !in TermSet(init);
    }
  }

  /** Every key of the map is listed: no entry is dropped. */
  lemma ListsEveryKey(terms: seq<Entry>, m: map<string, Definitions>)
    requires ListsEntries(terms, m)
    ensures TermSet(terms) == m.Keys
    ensures forall k :: k in m ==> exists i :: 0 <= i < |terms| && terms[i] == Entry(k, m[k])
  {
    var t := TermSet(terms);
    TermSetSize(terms);
    assert t <= m.Keys;
    var extra := m.Keys - t;
    assert m.Keys == t + extra;
    assert |m.Keys| == |t| + |extra|;
    assert extra == {};
    forall k | k in m ensures exists i :: 0 <= i < |terms| && terms[i] == Entry(k, m[k]) {
      var i :| 0 <= i < |terms| && terms[i].term == k;
    }
  }

  /**
   * `Dictionary::from_file`, past the file being opened and parsed. The
   * entry map is drained in an order nobody promises (`HashMap` iteration),
   * which the model leaves open by picking any remaining key.
   */
  method FromFile(path: string, contents: Result<Value, ReadError>) returns (r: Result<Dictionary, Failure>)
    ensures r.Err? <==> Load(path, contents).Err?
    ensures r.Err? ==> r.error == Load(path, contents).error
    ensures r.Ok? ==>
      && r.value.name == Load(path, contents).value.0
      && ListsEntries(r.value.terms, Load(path, contents).value.1)
  {
    var loaded := Load(path, contents);
    if loaded.Err? {
      return Err(loaded.error);
    }
    var (name, m) := loaded.value;
    var terms: seq<Entry> := [];
    var remaining := m.Keys;
    while remaining != {}
      invariant remaining <= m.Keys
      invariant |terms| + |remaining| == |m|
      invariant forall i :: 0 <= i < |terms| ==>
        terms[i].term in m && terms[i].term !in remaining && terms[i].definitions == m[terms[i].term]
      invariant forall i, j :: 0 <= i < j < |terms| ==> terms[i].term != terms[j].term
      decreases remaining
    {
      var k :| k in remaining;
      terms := terms + [EntryFrom((k, m[k]))];
      remaining := remaining - {k};
    }
    r := Ok(Dictionary(name, terms));
  }

  /** A one-term document whose value is a bare string, and one whose value is a list. */
  lemma ExampleDocuments()
    ensures DecodeEntryMap(Map([("cat", Str("a feline"))])) == Ok(map["cat" := Definitions(["a feline"])])
    ensures DecodeEntryMap(Map([("cat", Seq([Str("a feline"), Str("a whip")]))])) ==
            Ok(map["cat" := Definitions(["a feline", "a whip"])])
    ensures Record(Entry("cat", Definitions(["a feline", "a whip"]))) == ["cat", "a feline; a whip"]
    ensures DecodeEntryMap(Map([("cat", Number(42))])) == Err(InvalidType(Numeric, EXPECT_STRING_OR_SEQ))
  {
    var one := [("cat", Str("a feline"))];
    assert one[1..] == [];
    var two := [("cat", Seq([Str("a feline"), Str("a whip")]))];
    assert two[1..] == [];
    var items := [Str("a feline"), Str("a whip")];
    assert items[0].Str? && items[1].Str?;
    var ss := DecodeStrings(items);
    assert ss.Ok? && ss.value[0] == "a feline" && ss.value[1] == "a whip";
    assert ss.value == ["a feline", "a whip"];
    assert ["a feline", "a whip"][1..] == ["a whip"];
    assert Text.Join(["a whip"], SEPARATOR) == "a whip";
    assert "a feline" + SEPARATOR + "a whip" == "a feline; a whip";
  }

  /** A document that is not a map, or has a value of the wrong shape, is not loaded. */
  lemma LoadRejects(path: string, v: Value)
    ensures !v.Map? ==> Load(path, Ok(v)) == Err(Decode(InvalidType(UnexpectedOf(v), EXPECT_MAP)))
    ensures v.Map? && (exists i :: 0 <= i < |v.entries| && DecodeDefinitions(v.entries[i].1).Err?) ==>
      Load(path, Ok(v)).Err? && Load(path, Ok(v)).error.Decode?
  {
    if v.Map? {
      InsertAllSpec(v.entries, map[]);
    }
  }
}
