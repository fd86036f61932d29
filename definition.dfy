/**
 * src/definition.rs: a definition written either as a bare string or as a
 * map with a required `def` and an optional `note`, and a field holding one
 * such definition or a sequence of them. Only the `def` texts are ever
 * rendered.
 */
module Definition {

  import opened Wrappers
  import opened Serde
  import Text

  datatype InnerDefinition = InnerDefinition(def: string, note: Option<string>)

  /** The transparent wrapper whose decoding accepts both shapes. */
  datatype Definition = Definition(inner: InnerDefinition)

  datatype Definitions = Definitions(items: seq<Definition>)

  const DEF_KEY := "def"
  const NOTE_KEY := "note"
  const EXPECT_STRING_OR_MAP := "string or map"
  const SEPARATOR := "; "

  /** `FromStr for InnerDefinition`: every string is a definition without a note. */
  function ParseInner(s: string): Result<InnerDefinition, ()>
  {
    Ok(InnerDefinition(s, None))
  }

  // ---------------------------------------------------------------------
  // The derived `Deserialize` of InnerDefinition, visiting a map

  /**
   * The fields seen so far: `None` while a key has not been met; for `note`,
   * `Some(None)` records an explicit null.
   */
  datatype Fields = Fields(def: Option<string>, note: Option<Option<string>>)

  /** One map entry: a repeated key or a mistyped value is fatal, other keys are skipped. */
  function VisitField(st: Fields, key: string, v: Value): Result<Fields, DecodeError>
  {
    if key == DEF_KEY then
      if st.def.Some? then Err(DuplicateField(DEF_KEY))
      else if v.Str? then Ok(st.(def := Some(v.s)))
      else Err(InvalidType(UnexpectedOf(v), EXPECT_STRING))
    else if key == NOTE_KEY then
      if st.note.Some? then Err(DuplicateField(NOTE_KEY))
      else if v.Null? then Ok(st.(note := Some(None)))
      else if v.Str? then Ok(st.(note := Some(Some(v.s))))
      else Err(InvalidType(UnexpectedOf(v), EXPECT_STRING))
    else Ok(st)
  }

  /** The entries in document order, stopping at the first error. */
  function VisitFields(entries: seq<(string, Value)>, st: Fields): Result<Fields, DecodeError>
  {
    if entries == [] then Ok(st)
    else match VisitField(st, entries[0].0, entries[0].1)
      case Err(e) => Err(e)
      case Ok(st') => VisitFields(entries[1..], st')
  }

  /** A missing `def` is an error; a missing `note` is `None`. */
  function DecodeInner(entries: seq<(string, Value)>): Result<InnerDefinition, DecodeError>
  {
    match VisitFields(entries, Fields(None, None))
    case Err(e) => Err(e)
    case Ok(st) =>
      if st.def.None? then Err(MissingField(DEF_KEY))
      else Ok(InnerDefinition(st.def.value, if st.note.Some? then st.note.value else None))
  }

  // ---------------------------------------------------------------------
  // A direct description of which maps are definitions

  /** How many entries carry `key`. */
  function KeyCount(entries: seq<(string, Value)>, key: string): nat
  {
    if entries == [] then 0
    else (if entries[0].0 == key then 1 else 0) + KeyCount(entries[1..], key)
  }

  /** The value of the first entry carrying `key`. */
  function Lookup(entries: seq<(string, Value)>, key: string): (r: Option<Value>)
    ensures r.Some? <==> KeyCount(entries, key) > 0
    ensures r.Some? ==> exists i :: 0 <= i < |entries| && entries[i] == (key, r.value)
  {
    if entries == [] then None
    else if entries[0].0 == key then Some(entries[0].1)
    else
      var r := Lookup(entries[1..], key);
      if r.Some? then
        ghost var i :| 0 <= i < |entries| - 1 && entries[1..][i] == (key, r.value);
        assert entries[i + 1] == (key, r.value);
        r
      else r
  }

  /** `def` must hold a string, `note` a string or null. */
  predicate FieldTyped(kv: (string, Value))
  {
    && (kv.0 == DEF_KEY ==> kv.1.Str?)
    && (kv.0 == NOTE_KEY ==> kv.1.Str? || kv.1.Null?)
  }

  ghost predicate WellTyped(entries: seq<(string, Value)>)
  {
    forall i :: 0 <= i < |entries| ==> FieldTyped(entries[i])
  }

  /** The note an entry value contributes: a string, or nothing for null. */
  function NoteOf(v: Value): Option<string>
  {
    if v.Str? then Some(v.s) else None
  }

  /** The visit succeeds iff no field repeats (counting those already seen) and all are well typed. */
  lemma {:induction false} VisitFieldsSpec(entries: seq<(string, Value)>, st: Fields)
    ensures VisitFields(entries, st).Ok? <==>
      && KeyCount(entries, DEF_KEY) <= (if st.def.Some? then 0 else 1)
      && KeyCount(entries, NOTE_KEY) <= (if st.note.Some? then 0 else 1)
      && WellTyped(entries)
    ensures VisitFields(entries, st).Ok? ==>
      var r := VisitFields(entries, st).value;
      var d, n := Lookup(entries, DEF_KEY), Lookup(entries, NOTE_KEY);
      && r.def == (if d.Some? then Some(d.value.s) else st.def)
      && r.note == (if n.Some? then Some(NoteOf(n.value)) else st.note)
  {
    if entries != [] {
      var key, v := entries[0].0, entries[0].1;
      var rest := entries[1..];
      assert WellTyped(entries) <==> FieldTyped(entries[0]) && WellTyped(rest) by {
        if FieldTyped(entries[0]) && WellTyped(rest) {
          forall i | 0 <= i < |entries| ensures FieldTyped(entries[i]) {
            if i > 0 { assert entries[i] == rest[i - 1]; }
          }
        }
      }
      match VisitField(st, key, v)
      case Err(_) =>
      case Ok(st') =>
        VisitFieldsSpec(rest, st');
    }
  }

  /**
   * A map decodes iff it has exactly one `def`, at most one `note`, and both
   * are well typed; the definition then carries those values.
   */
  lemma DecodeInnerSpec(entries: seq<(string, Value)>)
    ensures DecodeInner(entries).Ok? <==>
      KeyCount(entries, DEF_KEY) == 1 && KeyCount(entries, NOTE_KEY) <= 1 && WellTyped(entries)
    ensures DecodeInner(entries).Ok? ==>
      && DecodeInner(entries).value.def == Lookup(entries, DEF_KEY).value.s
      && DecodeInner(entries).value.note == (if KeyCount(entries, NOTE_KEY) == 0 then None
                                             else NoteOf(Lookup(entries, NOTE_KEY).value))
  {
    VisitFieldsSpec(entries, Fields(None, None));
  }

  /** A map without `def` is rejected; with nothing else wrong the error is the missing field. */
  lemma MissingDef(entries: seq<(string, Value)>)
    requires KeyCount(entries, DEF_KEY) == 0
    ensures DecodeInner(entries).Err?
    ensures KeyCount(entries, NOTE_KEY) <= 1 && WellTyped(entries) ==>
      DecodeInner(entries) == Err(MissingField(DEF_KEY))
  {
    VisitFieldsSpec(entries, Fields(None, None));
  }

  // ---------------------------------------------------------------------
  // string_or_struct

  /** A string goes through `FromStr`, a map through the derived decoder, anything else is refused. */
  function DecodeDefinition(v: Value): Result<Definition, DecodeError>
  {
    match v
    case Str(s) => Ok(Definition(ParseInner(s).value))
    case Map(entries) =>
      (match DecodeInner(entries)
       case Ok(inner) => Ok(Definition(inner))
       case Err(e) => Err(e))
    case _ => Err(InvalidType(UnexpectedOf(v), EXPECT_STRING_OR_MAP))
  }

  /** Which values are definitions, and what they decode to. */
  lemma DecodeDefinitionSpec(v: Value)
    ensures DecodeDefinition(v).Ok? <==>
      v.Str? || (v.Map? && KeyCount(v.entries, DEF_KEY) == 1 && KeyCount(v.entries, NOTE_KEY) <= 1 && WellTyped(v.entries))
    ensures v.Str? ==> DecodeDefinition(v) == Ok(Definition(InnerDefinition(v.s, None)))
    ensures v.Map? && DecodeDefinition(v).Ok? ==>
      var inner := DecodeDefinition(v).value.inner;
      && inner.def == Lookup(v.entries, DEF_KEY).value.s
      && inner.note == (if KeyCount(v.entries, NOTE_KEY) == 0 then None else NoteOf(Lookup(v.entries, NOTE_KEY).value))
    ensures !v.Str? && !v.Map? ==> DecodeDefinition(v) == Err(InvalidType(UnexpectedOf(v), EXPECT_STRING_OR_MAP))
  {
    if v.Map? {
      DecodeInnerSpec(v.entries);
    }
  }

  /** A map with a string `def` and a string `note` and nothing else. */
  lemma DefAndNote(t: string, n: string)
    ensures DecodeDefinition(Map([(DEF_KEY, Str(t)), (NOTE_KEY, Str(n))])) == Ok(Definition(InnerDefinition(t, Some(n))))
    ensures DecodeDefinition(Map([(NOTE_KEY, Str(n)), (DEF_KEY, Str(t))])) == Ok(Definition(InnerDefinition(t, Some(n))))
    ensures DecodeDefinition(Map([(DEF_KEY, Str(t))])) == Ok(Definition(InnerDefinition(t, None)))
  {
    var d, m := (DEF_KEY, Str(t)), (NOTE_KEY, Str(n));
    var none, both := Fields(None, None), Fields(Some(t), Some(Some(n)));
    assert NOTE_KEY != DEF_KEY;
    assert [d, m][1..] == [m] && [m, d][1..] == [d];
    assert [d][1..] == [] && [m][1..] == [];
    assert VisitFields([d], none) == Ok(Fields(Some(t), None));
    assert VisitFields([m], none.(def := Some(t))) == Ok(both);
    assert VisitFields([d], none.(note := Some(Some(n)))) == Ok(both);
  }

  // ---------------------------------------------------------------------
  // OneOrMany

  /** Element `i` is the first that is not a definition. */
  ghost predicate FirstFailure(items: seq<Value>, i: int)
  {
    && 0 <= i < |items|
    && DecodeDefinition(items[i]).Err?
    && forall j :: 0 <= j < i ==> DecodeDefinition(items[j]).Ok?
  }

  /** `Vec<Definition>`: every element decoded in order, the first failure ending the visit. */
  function DecodeEach(items: seq<Value>): (r: Result<seq<Definition>, DecodeError>)
    ensures r.Ok? <==> forall i :: 0 <= i < |items| ==> DecodeDefinition(items[i]).Ok?
    ensures r.Ok? ==>
      && |r.value| == |items|
      && forall i :: 0 <= i < |items| ==> r.value[i] == DecodeDefinition(items[i]).value
    ensures r.Err? ==>
      exists i :: FirstFailure(items, i) && r.error == DecodeDefinition(items[i]).error
  {
    if items == [] then Ok([])
    else match DecodeDefinition(items[0])
      case Err(e) => Err(e)
      case Ok(d) =>
        var rest := DecodeEach(items[1..]);
        match rest
        case Err(e) =>
          ghost var i :| FirstFailure(items[1..], i) && e == DecodeDefinition(items[1..][i]).error;
          assert FirstFailure(items, i + 1) by {
            forall j | 0 < j < i + 1 ensures DecodeDefinition(items[j]).Ok? {
              assert items[j] == items[1..][j - 1];
            }
          }
          Err(e)
        case Ok(ds) => Ok([d] + ds)
  }

  /**
   * One definition, or a sequence of them. The single form is tried first;
   * when both forms fail, both errors are reported.
   */
  function DecodeDefinitions(v: Value): Result<Definitions, DecodeError>
  {
    match DecodeDefinition(v)
    case Ok(d) => Ok(Definitions([d]))
    case Err(one) =>
      var many := if v.Seq? then DecodeEach(v.items) else Err(InvalidType(UnexpectedOf(v), EXPECT_SEQUENCE));
      match many
      case Ok(ds) => Ok(Definitions(ds))
      case Err(e) => Err(NoVariant(one, e))
  }

  /** A single definition-shaped value gives a one-element list; a sequence keeps its length and order. */
  lemma DecodeDefinitionsSpec(v: Value)
    ensures !v.Seq? ==>
      (DecodeDefinitions(v).Ok? <==> DecodeDefinition(v).Ok?) &&
      (DecodeDefinitions(v).Ok? ==> DecodeDefinitions(v).value.items == [DecodeDefinition(v).value]) &&
      (DecodeDefinitions(v).Err? ==>
         DecodeDefinitions(v).error == NoVariant(DecodeDefinition(v).error, InvalidType(UnexpectedOf(v), EXPECT_SEQUENCE)))
    ensures v.Seq? ==>
      var r := DecodeDefinitions(v);
      && (r.Ok? <==> forall i :: 0 <= i < |v.items| ==> DecodeDefinition(v.items[i]).Ok?)
      && (r.Ok? ==>
            && |r.value.items| == |v.items|
            && forall i :: 0 <= i < |v.items| ==> r.value.items[i] == DecodeDefinition(v.items[i]).value)
      && (r.Err? ==>
            && r.error.NoVariant?
            && r.error.one == InvalidType(Sequence, EXPECT_STRING_OR_MAP)
            && exists i :: FirstFailure(v.items, i) && r.error.many == DecodeDefinition(v.items[i]).error)
  {
  }

  // ---------------------------------------------------------------------
  // Display and Serialize

  /** `Display for Definition`. */
  function Display(d: Definition): string
  {
    d.inner.def
  }

  function Texts(ds: seq<Definition>): seq<string>
  {
    seq(|ds|, i requires 0 <= i < |ds| => Display(ds[i]))
  }

  /** `Display for Definitions`. */
  function Render(ds: Definitions): string
  {
    Text.Join(Texts(ds.items), SEPARATOR)
  }

  /** `Serialize for Definitions`: one string scalar. */
  function Serialize(ds: Definitions): Value
  {
    Str(Render(ds))
  }

  /** A definition displays as its `def` text, whatever its note. */
  lemma DisplayIgnoresNote(t: string, n: Option<string>)
    ensures Display(Definition(InnerDefinition(t, n))) == t
  {
  }

  /**
   * Two lists whose `def` texts agree render and serialize identically,
   * so notes never reach the output.
   */
  lemma RenderIgnoresNotes(a: Definitions, b: Definitions)
    requires |a.items| == |b.items|
    requires forall i :: 0 <= i < |a.items| ==> a.items[i].inner.def == b.items[i].inner.def
    ensures Render(a) == Render(b)
    ensures Serialize(a) == Serialize(b)
  {
    assert Texts(a.items) == Texts(b.items);
  }

  /** Rendering is the `def` texts in order with "; " between them. */
  lemma RenderShape(ds: Definitions)
    ensures |ds.items| == 0 ==> Render(ds) == ""
    ensures |ds.items| == 1 ==> Render(ds) == ds.items[0].inner.def
    ensures |ds.items| >= 1 ==> |Render(ds)| == Text.TotalLength(Texts(ds.items)) + 2 * (|ds.items| - 1)
    ensures Serialize(ds) == Str(Render(ds))
  {
    Text.JoinLength(Texts(ds.items), SEPARATOR);
  }

  /** Rendering a concatenation puts one separator at the seam. */
  lemma RenderConcat(a: Definitions, b: Definitions)
    requires |a.items| >= 1 && |b.items| >= 1
    ensures Render(Definitions(a.items + b.items)) == Render(a) + SEPARATOR + Render(b)
  {
    assert Texts(a.items + b.items) == Texts(a.items) + Texts(b.items);
    Text.JoinConcat(Texts(a.items), Texts(b.items), SEPARATOR);
  }
}
