/**
 * The CSV-specification to JSON Schema compiler (`csv_to_jsonschema.py`):
 * keep the rows whose `Attribute` is one of five publication fields, and
 * turn each into a draft-07 property (`type`, `title`, `description`, and
 * `items`/`enum` when the row says so), collecting the `required` keys in
 * row order.
 */
module SchemaCompiler {

  import opened Wrappers
  import opened Strings

  /** One row of the specification CSV; a NaN cell is `None`. */
  datatype SpecRow = SpecRow(
    attribute: string,
    validationRules: Option<string>,
    description: Option<string>,
    validValues: Option<string>,
    required: Option<bool>)

  /** The attributes the compiler keeps, in the order the source lists them. */
  const TargetFields: seq<string> := [
    "Pubmed Id",
    "Publication Assay",
    "Publication Tumor Type",
    "Publication Tissue",
    "Publication Dataset Alias"
  ]

  const ListLike := "list like"
  const Draft07 := "http://json-schema.org/draft-07/schema#"
  const SchemaTitle := "Publication Metadata Schema"
  const SchemaDescription := "Schema for publication metadata with selected fields"

  /**
   * One property of the generated schema. An array property has
   * `items: {type: "string"}` and carries its `enum` inside `items`; a string
   * property carries its `enum` itself.
   */
  datatype PropertyDef =
    | ArrayProperty(title: string, description: Option<string>, itemsEnum: Option<seq<string>>)
    | StringProperty(title: string, description: Option<string>, enum: Option<seq<string>>)
  {
    /** The value of the property's `type` keyword. */
    function TypeKeyword(): string
    {
      if ArrayProperty? then "array" else "string"
    }

    /** The value of `items.type`, when the property has `items`. */
    function ItemsType(): Option<string>
    {
      if ArrayProperty? then Some("string") else None
    }

    /** The allowed values, wherever the property keeps them. */
    function AllowedValues(): Option<seq<string>>
    {
      if ArrayProperty? then itemsEnum else enum
    }
  }

  /** The generated document: fixed top-level keywords, the properties by key, and `required`. */
  datatype JsonSchema = JsonSchema(
    schemaUri: string,
    typeKeyword: string,
    title: string,
    description: string,
    properties: map<string, PropertyDef>,
    required: seq<string>)

  // ---------------------------------------------------------------------------
  // Row-level pieces

  /** `attribute in target_fields`: the row describes one of the fields the schema keeps. */
  predicate IsTarget(attribute: string)
  {
    attribute in TargetFields
  }

  /** `df[df['Attribute'].isin(target_fields)]`, order kept. */
  function Filter(rows: seq<SpecRow>): (kept: seq<SpecRow>)
    ensures |kept| <= |rows|
  {
    if rows == [] then []
    else if IsTarget(rows[0].attribute) then [rows[0]] + Filter(rows[1..])
    else Filter(rows[1..])
  }

  /** The kept rows are the target rows of the input, no more, in input order. */
  lemma {:induction false} FilterKeepsTargets(rows: seq<SpecRow>)
    ensures |Filter(rows)| <= |rows|
    ensures forall row :: row in Filter(rows) <==> row in rows && IsTarget(row.attribute)
  {
    if rows != [] {
      FilterKeepsTargets(rows[1..]);
      assert rows == [rows[0]] + rows[1..];
    }
  }

  lemma {:induction false} FilterConcat(a: seq<SpecRow>, b: seq<SpecRow>)
    ensures Filter(a + b) == Filter(a) + Filter(b)
  {
    if a != [] {
      assert (a + b)[1..] == a[1..] + b;
      FilterConcat(a[1..], b);
    } else {
      assert a + b == b;
    }
  }

  /** The property key: the attribute with every space removed. */
  function PropertyKey(attribute: string): (key: string)
    ensures ' ' !in key
  {
    RemoveAll(attribute, ' ')
  }

  /** `[v.strip() for v in valid_values.split(',')]`. */
  function EnumValues(validValues: string): (values: seq<string>)
    ensures |values| == Count(validValues, ',') + 1
    ensures forall k :: 0 <= k < |values| ==> values[k] == Strip(Split(validValues, ',')[k])
  {
    var pieces := Split(validValues, ',');
    seq(|pieces|, k requires 0 <= k < |pieces| => Strip(pieces[k]))
  }

  /**
   * The enum has one value per comma-separated piece, in order; no value
   * contains a comma or starts or ends with whitespace.
   */
  lemma EnumValuesShape(validValues: string)
    ensures |EnumValues(validValues)| == Count(validValues, ',') + 1
    ensures forall k :: 0 <= k < |EnumValues(validValues)| ==>
      var v := EnumValues(validValues)[k];
      && ',' !in v
      && Strip(v) == v
      && (v != [] ==> !IsSpace(v[0]) && !IsSpace(v[|v| - 1]))
  {
    var pieces := Split(validValues, ',');
    var vs := EnumValues(validValues);
    forall k | 0 <= k < |vs|
      ensures ',' !in vs[k] && Strip(vs[k]) == vs[k]
      ensures vs[k] != [] ==> !IsSpace(vs[k][0]) && !IsSpace(vs[k][|vs[k]| - 1])
    {
      StripIsTrimmedSlice(pieces[k]);
      StripIdempotent(pieces[k]);
    }
  }

  /**
   * Value k of the enum is piece k of the cell with its surrounding
   * whitespace cut and nothing else changed: a slice of the piece, with only
   * whitespace before and after it.
   */
  lemma EnumValueAt(validValues: string, k: nat)
    requires k < |EnumValues(validValues)|
    ensures var v := EnumValues(validValues)[k];
      var piece := Split(validValues, ',')[k];
      && v == piece[LeadingSpaces(piece)..LeadingSpaces(piece) + |v|]
      && (forall j :: 0 <= j < LeadingSpaces(piece) ==> IsSpace(piece[j]))
      && (forall j :: LeadingSpaces(piece) + |v| <= j < |piece| ==> IsSpace(piece[j]))
  {
    var piece := Split(validValues, ',')[k];
    assert EnumValues(validValues)[k] == Strip(piece);
    StripIsTrimmedSlice(piece);
  }

  /** When no piece has whitespace around it, joining the enum with commas gives back the cell. */
  lemma EnumValuesRoundTrip(validValues: string)
    requires forall k :: 0 <= k < |Split(validValues, ',')| ==>
      Strip(Split(validValues, ',')[k]) == Split(validValues, ',')[k]
    ensures Join(EnumValues(validValues), ',') == validValues
  {
    var pieces := Split(validValues, ',');
    assert EnumValues(validValues) == pieces;
    JoinSplit(validValues, ',');
  }

  /** The property definition one row produces. */
  function PropertyFor(row: SpecRow): (p: PropertyDef)
    ensures p.TypeKeyword() == "array" <==> row.validationRules == Some(ListLike)
    ensures p.TypeKeyword() != "array" ==> p.TypeKeyword() == "string" && p.ItemsType() == None
    ensures p.TypeKeyword() == "array" ==> p.ItemsType() == Some("string")
    ensures p.title == row.attribute && p.description == row.description
    ensures p.AllowedValues().Some? <==> row.validValues.Some?
    ensures row.validValues.Some? ==> p.AllowedValues().value == EnumValues(row.validValues.value)
  {
    var allowed := if row.validValues.Some? then Some(EnumValues(row.validValues.value)) else None;
    if row.validationRules == Some(ListLike)
    then ArrayProperty(row.attribute, row.description, allowed)
    else StringProperty(row.attribute, row.description, allowed)
  }

  // ---------------------------------------------------------------------------
  // The document as a fold over the kept rows (specification of CsvToJsonSchema)

  /** The keys the rows produce. */
  function KeysOf(rows: seq<SpecRow>): set<string>
  {
    set row | row in rows :: PropertyKey(row.attribute)
  }

  lemma KeysOfSnoc(rows: seq<SpecRow>, row: SpecRow)
    ensures KeysOf(rows + [row]) == KeysOf(rows) + {PropertyKey(row.attribute)}
  {
    assert forall r :: r in rows + [row] <==> r in rows || r == row;
  }

  /** `schema["properties"]` after the rows: a later row with the same key replaces the earlier one. */
  function PropertiesOf(rows: seq<SpecRow>): (properties: map<string, PropertyDef>)
    ensures forall key :: key in properties ==> ' ' !in key
  {
    if rows == [] then map[]
    else
      var last := rows[|rows| - 1];
      PropertiesOf(rows[..|rows| - 1])[PropertyKey(last.attribute) := PropertyFor(last)]
  }

  /** `schema["required"]` after the rows: the keys of the rows whose `Required` is true, in row order. */
  function RequiredOf(rows: seq<SpecRow>): (required: seq<string>)
    ensures |required| <= |rows|
    ensures forall k :: 0 <= k < |required| ==> ' ' !in required[k]
  {
    if rows == [] then []
    else
      var last := rows[|rows| - 1];
      RequiredOf(rows[..|rows| - 1]) + (if last.required == Some(true) then [PropertyKey(last.attribute)] else [])
  }

  lemma FoldsSnoc(rows: seq<SpecRow>, row: SpecRow)
    ensures PropertiesOf(rows + [row]) == PropertiesOf(rows)[PropertyKey(row.attribute) := PropertyFor(row)]
    ensures RequiredOf(rows + [row]) ==
      RequiredOf(rows) + (if row.required == Some(true) then [PropertyKey(row.attribute)] else [])
  {
    assert (rows + [row])[..|rows|] == rows;
  }

  /** The properties are keyed by exactly the keys of the rows. */
  lemma {:induction false} PropertiesKeys(rows: seq<SpecRow>)
    ensures PropertiesOf(rows).Keys == KeysOf(rows)
  {
    if rows != [] {
      var init := rows[..|rows| - 1];
      var last := rows[|rows| - 1];
      assert rows == init + [last];
      PropertiesKeys(init);
      KeysOfSnoc(init, last);
    }
  }

  /** A key is required exactly when some row with that key has `Required` true. */
  lemma {:induction false} RequiredMembers(rows: seq<SpecRow>)
    ensures |RequiredOf(rows)| <= |rows|
    ensures forall k :: k in RequiredOf(rows) <==>
      exists row :: row in rows && row.required == Some(true) && PropertyKey(row.attribute) == k
  {
    if rows != [] {
      var init := rows[..|rows| - 1];
      var last := rows[|rows| - 1];
      assert rows == init + [last];
      assert forall r :: r in rows <==> r in init || r == last;
      RequiredMembers(init);
    }
  }

  /** The whole document for a specification CSV. */
  function Compile(rows: seq<SpecRow>): (schema: JsonSchema)
    ensures |schema.required| <= |rows|
    ensures forall key :: key in schema.properties ==> ' ' !in key
    ensures forall k :: 0 <= k < |schema.required| ==> ' ' !in schema.required[k]
  {
    var kept := Filter(rows);
    JsonSchema(Draft07, "object", SchemaTitle, SchemaDescription,
               PropertiesOf(kept), RequiredOf(kept))
  }

  // ---------------------------------------------------------------------------
  // Properties of the document

  /** The keys the five target attributes turn into. */
  function TargetKeys(): set<string>
  {
    set t | t in TargetFields :: PropertyKey(t)
  }

  /**
   * Every property key of the document is a target attribute with its
   * spaces removed; keys hold no spaces.
   */
  lemma PropertyKeysAreTargetKeys(rows: seq<SpecRow>)
    ensures Compile(rows).properties.Keys <= TargetKeys()
    ensures forall k :: k in Compile(rows).properties ==> ' ' !in k
  {
    var kept := Filter(rows);
    PropertiesKeys(kept);
    FilterKeepsTargets(rows);
    forall k | k in Compile(rows).properties ensures k in TargetKeys() && ' ' !in k {
      var row :| row in kept && PropertyKey(row.attribute) == k;
      assert IsTarget(row.attribute);
    }
  }

  /** The property under a key is the one built from the last row with that key. */
  lemma {:induction false} LastRowWins(rows: seq<SpecRow>, i: nat)
    requires i < |rows|
    requires forall j :: i < j < |rows| ==> PropertyKey(rows[j].attribute) != PropertyKey(rows[i].attribute)
    ensures PropertyKey(rows[i].attribute) in PropertiesOf(rows)
    ensures PropertiesOf(rows)[PropertyKey(rows[i].attribute)] == PropertyFor(rows[i])
  {
    if i < |rows| - 1 {
      LastRowWins(rows[..|rows| - 1], i);
    }
  }

  /**
   * For a kept row not followed by another with the same key, the document's
   * property is an array of strings exactly when the row's rule is
   * "list like", is titled with the row's attribute, and has an enum exactly
   * when the row has valid values.
   */
  lemma PropertyOfRow(rows: seq<SpecRow>, i: nat)
    requires i < |Filter(rows)|
    requires forall j :: i < j < |Filter(rows)| ==>
      PropertyKey(Filter(rows)[j].attribute) != PropertyKey(Filter(rows)[i].attribute)
    ensures var row := Filter(rows)[i];
      && PropertyKey(row.attribute) in Compile(rows).properties
      && var p := Compile(rows).properties[PropertyKey(row.attribute)];
      && (p.TypeKeyword() == "array" <==> row.validationRules == Some(ListLike))
      && (p.TypeKeyword() == "array" ==> p.ItemsType() == Some("string"))
      && p.title == row.attribute
      && (p.AllowedValues().Some? <==> row.validValues.Some?)
  {
    LastRowWins(Filter(rows), i);
  }

  /** `required` keeps row order: the rows of a prefix contribute a prefix. */
  lemma {:induction false} RequiredOfConcat(a: seq<SpecRow>, b: seq<SpecRow>)
    ensures RequiredOf(a + b) == RequiredOf(a) + RequiredOf(b)
    decreases |b|
  {
    if b == [] {
      assert a + b == a;
    } else {
      var init := b[..|b| - 1];
      assert a + b == (a + init) + [b[|b| - 1]];
      assert (a + b)[..|a + b| - 1] == a + init;
      RequiredOfConcat(a, init);
    }
  }

  /** A row outside the five targets changes nothing in the document. */
  lemma NonTargetRowIgnored(before: seq<SpecRow>, row: SpecRow, after: seq<SpecRow>)
    requires !IsTarget(row.attribute)
    ensures Compile(before + [row] + after) == Compile(before + after)
  {
    assert Filter(before + [row] + after) == Filter(before + after) by {
      FilterConcat(before + [row], after);
      FilterConcat(before, [row]);
      FilterConcat(before, after);
      assert Filter([row]) == [] by {
        assert [row][1..] == [];
      }
    }
  }

  // ---------------------------------------------------------------------------
  // csv_to_json_schema

  /**
   * The compiler's loop: for each kept row, build its property, store it
   * under its key (replacing an earlier one), and append the key to
   * `required` when the row is required.
   */
  method CsvToJsonSchema(rows: seq<SpecRow>) returns (schema: JsonSchema)
    ensures schema == Compile(rows)
    ensures schema.schemaUri == Draft07 && schema.typeKeyword == "object"
    ensures schema.title == SchemaTitle && schema.description == SchemaDescription
  {
    var kept := Filter(rows);
    var properties: map<string, PropertyDef> := map[];
    var required: seq<string> := [];
    for i := 0 to |kept|
      invariant properties == PropertiesOf(kept[..i])
      invariant required == RequiredOf(kept[..i])
    {
      var row := kept[i];
      assert kept[..i + 1] == kept[..i] + [row];
      FoldsSnoc(kept[..i], row);
      var key := RemoveAll(row.attribute, ' ');
      var isArray := row.validationRules == Some(ListLike);
      var def: PropertyDef;
      if isArray {
        def := ArrayProperty(row.attribute, row.description, None);
        if row.validValues.Some? {
          def := def.(itemsEnum := Some(EnumValues(row.validValues.value)));
        }
      } else {
        def := StringProperty(row.attribute, row.description, None);
        if row.validValues.Some? {
          def := def.(enum := Some(EnumValues(row.validValues.value)));
        }
      }
      assert def == PropertyFor(row);
      properties := properties[key := def];
      if row.required == Some(true) {
        required := required + [key];
      }
    }
    assert kept[..|kept|] == kept;
    assert properties == PropertiesOf(kept) && required == RequiredOf(kept);
    schema := JsonSchema(Draft07, "object", SchemaTitle, SchemaDescription, properties, required);
  }
}
