/** Content-hash pinning of tool definitions (pkg/toolintegrity). SHA-256 is kept
    symbolic: a digest is its preimage under a constructor, so two digests are
    equal exactly when their preimages are. */
module ToolIntegrity {
  import opened Text
  import opened Json
  import JsonLayout

  datatype ToolDef = ToolDef(
    name: string,
    description: string,
    verb: string,
    path: string,
    parametersSchema: string)

  /** A stored definition hash; `NoHash` is the empty string of a legacy row. */
  datatype DefHash = NoHash | Sha256(preimage: string)

  ghost function CanonicalizeSchema(f: Float64, schema: string): string {
    match Parse(f, schema)
    case Some(v) => Canonical(v)
    case None => schema
  }

  method Canonicalize(f: Float64, schema: string) returns (text: string)
    ensures text == CanonicalizeSchema(f, schema)
  {
    match Parse(f, schema)
    case None =>
      text := schema;
    case Some(v) =>
      var buf := new Buffer();
      WriteCanonical(buf, v);
      text := buf.data;
  }

  /** The two schemas mean the same to the hash. */
  predicate SameSchema(f: Float64, a: string, b: string) {
    if Parse(f, a).Some? then Parse(f, a) == Parse(f, b)
    else Parse(f, b).None? && a == b
  }

  lemma ParseDecodable(f: Float64, schema: string)
    requires Float64Text(f)
    ensures Parse(f, schema).Some? ==> Decodable(f, MAX_NESTING, Parse(f, schema).value)
  {
    ParsedIsDecodable(f, MAX_NESTING, schema);
  }

  /** A canonicalized schema still decodes to what the original decoded to. */
  lemma CanonicalKeepsMeaning(f: Float64, schema: string)
    requires Float64Text(f)
    ensures Parse(f, CanonicalizeSchema(f, schema)) == Parse(f, schema)
  {
    ParseDecodable(f, schema);
    if Parse(f, schema).Some? {
      RoundTrip(f, Parse(f, schema).value);
    }
  }

  /** Schemas canonicalize to the same text exactly when they decode to the same
      value, or neither decodes and they are the same text. */
  lemma CanonicalExact(f: Float64, a: string, b: string)
    requires Float64Text(f)
    ensures CanonicalizeSchema(f, a) == CanonicalizeSchema(f, b) <==> SameSchema(f, a, b)
  {
    CanonicalKeepsMeaning(f, a);
    CanonicalKeepsMeaning(f, b);
  }

  lemma CanonicalIdempotent(f: Float64, schema: string)
    requires Float64Text(f)
    ensures CanonicalizeSchema(f, CanonicalizeSchema(f, schema)) == CanonicalizeSchema(f, schema)
  {
    CanonicalKeepsMeaning(f, schema);
  }

  /** However a value is laid out, with members in any order at every depth, any white
      space, number literals and escapes, the canonical form is that of the value. */
  lemma KeyOrderIrrelevant(f: Float64, before: string, l: JsonLayout.Layout, after: string)
    requires JsonLayout.WellFormed(f, MAX_NESTING, l) && JsonLayout.Blank(before) && JsonLayout.Blank(after)
    ensures CanonicalizeSchema(f, before + JsonLayout.WrittenThen(l, after)) == Canonical(JsonLayout.Meaning(f, l))
  {
    JsonLayout.DocumentReads(f, before, l, after);
    hide *;
    CanonicalOfParsed(f, before + JsonLayout.WrittenThen(l, after), JsonLayout.Meaning(f, l));
  }

  lemma CanonicalOfParsed(f: Float64, text: string, v: Value)
    requires Parse(f, text) == Some(v)
    ensures CanonicalizeSchema(f, text) == Canonical(v)
  {
  }

  // ------------------------------------------------------------ the hash

  /** `json.Marshal` of the fixed-shape struct of strings. */
  function Preimage(name: string, description: string, verb: string, path: string, schema: string): string {
    "{\"name\":" + (Quote(name) + (",\"description\":" + (Quote(description) +
    (",\"method\":" + (Quote(verb) + (",\"path\":" + (Quote(path) +
    (",\"parameters_schema\":" + (Quote(schema) + "}")))))))))
  }

  ghost function Hash(f: Float64, d: ToolDef): (h: DefHash)
    ensures h != NoHash
  {
    Sha256(Preimage(d.name, d.description, d.verb, d.path, CanonicalizeSchema(f, d.parametersSchema)))
  }

  method ComputeHash(f: Float64, d: ToolDef) returns (h: DefHash)
    ensures h == Hash(f, d)
  {
    var schema := Canonicalize(f, d.parametersSchema);
    h := Sha256(Preimage(d.name, d.description, d.verb, d.path, schema));
  }

  ghost predicate Changed(f: Float64, prior: DefHash, d: ToolDef) {
    prior != NoHash && Hash(f, d) != prior
  }

  lemma SamePrefix(prefix: string, a: string, b: string)
    requires prefix + a == prefix + b
    ensures a == b
  {
    assert (prefix + a)[|prefix|..] == a;
    assert (prefix + b)[|prefix|..] == b;
  }

  /** One labelled field of the preimage can be read off unambiguously. */
  lemma FieldUnambiguous(tag: string, a: string, x: string, b: string, y: string)
    requires tag + (Quote(a) + x) == tag + (Quote(b) + y)
    ensures a == b && x == y
  {
    SamePrefix(tag, Quote(a) + x, Quote(b) + y);
    QuoteUnambiguous(a, x, b, y);
  }

  lemma PreimageUnambiguous(
    name: string, description: string, verb: string, path: string, schema: string,
    name': string, description': string, verb': string, path': string, schema': string)
    requires Preimage(name, description, verb, path, schema) == Preimage(name', description', verb', path', schema')
    ensures name == name' && description == description' && verb == verb' && path == path' && schema == schema'
  {
    var e, e' := Quote(schema) + "}", Quote(schema') + "}";
    var d, d' := Quote(path) + (",\"parameters_schema\":" + e), Quote(path') + (",\"parameters_schema\":" + e');
    var c, c' := Quote(verb) + (",\"path\":" + d), Quote(verb') + (",\"path\":" + d');
    var b, b' := Quote(description) + (",\"method\":" + c), Quote(description') + (",\"method\":" + c');
    assert "{\"name\":" + (Quote(name) + (",\"description\":" + b))
        == "{\"name\":" + (Quote(name') + (",\"description\":" + b'));
    hide *;
    FieldUnambiguous("{\"name\":", name, ",\"description\":" + b, name', ",\"description\":" + b');
    FieldUnambiguous(",\"description\":", description, ",\"method\":" + c, description', ",\"method\":" + c');
    FieldUnambiguous(",\"method\":", verb, ",\"path\":" + d, verb', ",\"path\":" + d');
    FieldUnambiguous(",\"path\":", path, ",\"parameters_schema\":" + e, path', ",\"parameters_schema\":" + e');
    FieldUnambiguous(",\"parameters_schema\":", schema, "}", schema', "}");
  }

  /** The behaviour-relevant content of two definitions is the same. */
  predicate SameDefinition(f: Float64, a: ToolDef, b: ToolDef) {
    a.name == b.name && a.description == b.description && a.verb == b.verb && a.path == b.path
    && SameSchema(f, a.parametersSchema, b.parametersSchema)
  }

  /** Definitions hash alike exactly when every field agrees and the schemas mean
      the same: no cosmetic change alters the hash, and no other change keeps it. */
  lemma HashExact(f: Float64, a: ToolDef, b: ToolDef)
    requires Float64Text(f)
    ensures Hash(f, a) == Hash(f, b) <==> SameDefinition(f, a, b)
  {
    CanonicalExact(f, a.parametersSchema, b.parametersSchema);
    if Hash(f, a) == Hash(f, b) {
      PreimageUnambiguous(
        a.name, a.description, a.verb, a.path, CanonicalizeSchema(f, a.parametersSchema),
        b.name, b.description, b.verb, b.path, CanonicalizeSchema(f, b.parametersSchema));
    }
  }

  /** A pin taken on one definition reports exactly the definitions that differ from it. */
  lemma PinDetectsExactly(f: Float64, approved: ToolDef, live: ToolDef)
    requires Float64Text(f)
    ensures Changed(f, Hash(f, approved), live) <==> !SameDefinition(f, approved, live)
    ensures !Changed(f, NoHash, live)
  {
    HashExact(f, approved, live);
  }
}
