/**
 * lib/tl1/input_format.rb and lib/tl1/output_format.rb: a message format
 * kept as its source, whose tree is parsed the first time it is asked for
 * and kept from then on (`@ast ||= ...`).
 *
 * The functions say what each format operation gives for a source; the
 * `InputFormat` and `OutputFormat` classes hold the cached tree and are
 * proved to give exactly that, whether the tree was cached or not.
 */
module Formats {
  import opened Wrappers
  import opened Ast
  import Tree = Ast
  import opened Rendering
  import opened Matching
  import opened ReadBack

  /** `as_json` of a format: the structured form of its tree. */
  function FormatJson(source: Json): (r: Result<Json>)
    ensures r.Ok? <==> ParseMessageFormat(source).Ok?
  {
    match ParseMessageFormat(source)
    case Err(e) => Err(e)
    case Ok(root) => Ok(AsJson(root))
  }

  /** `InputFormat#format`: the message the tree writes for the values. */
  function FormatWith(source: Json, values: map<string, string>): (r: Result<string>)
    ensures r.Ok? <==> ParseMessageFormat(source).Ok?
  {
    match ParseMessageFormat(source)
    case Err(e) => Err(e)
    case Ok(root) => Ok(Format(root, values))
  }

  /** `OutputFormat#parse`: the record the tree reads from one record text. */
  function ParseWith(source: Json, record: string): (r: Result<map<string, string>>)
    ensures ParseMessageFormat(source).Err? ==> r == Err(ParseMessageFormat(source).error)
  {
    match ParseMessageFormat(source)
    case Err(e) => Err(e)
    case Ok(root) => ParseRecord(root, record)
  }

  /** What `@ast` holds once the tree has been asked for: the tree, or nothing when parsing raised. */
  function CachedTree(source: Json): Option<Node>
  {
    if ParseMessageFormat(source).Ok? then Some(ParseMessageFormat(source).value) else None
  }

  /** A format whose messages read back: every child of its root is clean. */
  predicate Readable(source: Json)
  {
    && ParseMessageFormat(source).Ok?
    && |ParseMessageFormat(source).value.children| >= 1
    && CleanChildren(ParseMessageFormat(source).value.children)
  }

  /** The record a readable format reads back from its own message: the values of the variables it wrote. */
  function ReadValues(source: Json, values: map<string, string>): map<string, string>
    requires Readable(source)
  {
    map x | x in AssignedFrom(ParseMessageFormat(source).value.children, 0, values) :: ValueOf(values, x)
  }

  /**
   * A message written by a readable format, with plain values, is read back
   * by a format of the same source as the values of its variables.
   */
  lemma MessageReadBack(source: Json, values: map<string, string>)
    requires Readable(source) && PlainValues(values)
    ensures FormatWith(source, values).Ok?
    ensures ParseWith(source, FormatWith(source, values).value) == Ok(ReadValues(source, values))
  {
    var root := ParseMessageFormat(source).value;
    FormatThenParse(root.children, values);
  }

  /**
   * A format built from the `as_json` of a format string behaves as that
   * string: same tree, so same messages and same records.
   */
  lemma {:induction false} JsonFormatAgrees(s: string, values: map<string, string>, record: string)
    requires ParseMessageFormat(JString(s)).Ok?
    requires var root := ParseMessageFormat(JString(s)).value;
             forall i, j :: 0 <= i < |root.children| && 0 <= j < |NamesOf(root.children[i])| ==>
               StableName(NamesOf(root.children[i])[j])
    ensures FormatJson(JString(s)).Ok?
    ensures FormatWith(FormatJson(JString(s)).value, values) == FormatWith(JString(s), values)
    ensures ParseWith(FormatJson(JString(s)).value, record) == ParseWith(JString(s), record)
  {
    ParsedRoundTrip(s);
  }

  /** `TL1::InputFormat`: a format for input messages. */
  class InputFormat {
    const source: Json
    /** `@ast`: the tree, once it has been parsed. */
    var ast: Option<Node>

    /** A cached tree is the tree of the source. */
    predicate Valid()
      reads this
    {
      ast.Some? ==> ParseMessageFormat(source) == Ok(ast.value)
    }

    constructor (source: Json)
      ensures this.source == source && ast == None && Valid()
    {
      this.source := source;
      ast := None;
    }

    /** `ast`: the tree of the source, parsed on the first call that succeeds and kept. */
    method Ast() returns (r: Result<Node>)
      requires Valid()
      modifies this
      ensures Valid() && r == ParseMessageFormat(source)
      ensures ast == (if r.Ok? then Some(r.value) else None)
    {
      if ast.Some? {
        return Ok(ast.value);
      }
      r := ParseMessageFormat(source);
      if r.Ok? {
        ast := Some(r.value);
      }
    }

    /** `as_json`: the structured form of the tree. */
    method AsJson() returns (r: Result<Json>)
      requires Valid()
      modifies this
      ensures Valid() && r == FormatJson(source)
      ensures ast == CachedTree(source)
    {
      var tree := Ast();
      if tree.Err? {
        return Err(tree.error);
      }
      r := Ok(Tree.AsJson(tree.value));
    }

    /** `format`: the message for the values. */
    method Format(values: map<string, string>) returns (r: Result<string>)
      requires Valid()
      modifies this
      ensures Valid() && r == FormatWith(source, values)
      ensures ast == CachedTree(source)
    {
      var tree := Ast();
      if tree.Err? {
        return Err(tree.error);
      }
      r := Ok(Rendering.Format(tree.value, values));
    }
  }

  /** `TL1::OutputFormat`: a format for the records of output messages. */
  class OutputFormat {
    const source: Json
    /** `@ast`: the tree, once it has been parsed. */
    var ast: Option<Node>

    /** A cached tree is the tree of the source. */
    predicate Valid()
      reads this
    {
      ast.Some? ==> ParseMessageFormat(source) == Ok(ast.value)
    }

    constructor (source: Json)
      ensures this.source == source && ast == None && Valid()
    {
      this.source := source;
      ast := None;
    }

    /** `ast`: the tree of the source, parsed on the first call that succeeds and kept. */
    method Ast() returns (r: Result<Node>)
      requires Valid()
      modifies this
      ensures Valid() && r == ParseMessageFormat(source)
      ensures ast == (if r.Ok? then Some(r.value) else None)
    {
      if ast.Some? {
        return Ok(ast.value);
      }
      r := ParseMessageFormat(source);
      if r.Ok? {
        ast := Some(r.value);
      }
    }

    /** `as_json`: the structured form of the tree. */
    method AsJson() returns (r: Result<Json>)
      requires Valid()
      modifies this
      ensures Valid() && r == FormatJson(source)
      ensures ast == CachedTree(source)
    {
      var tree := Ast();
      if tree.Err? {
        return Err(tree.error);
      }
      r := Ok(Tree.AsJson(tree.value));
    }

    /** `parse`: the record read from one record text into a new, empty hash. */
    method Parse(recordSource: string) returns (r: Result<map<string, string>>)
      requires Valid()
      modifies this
      ensures Valid() && r == ParseWith(source, recordSource)
      ensures ast == CachedTree(source)
    {
      var tree := Ast();
      if tree.Err? {
        return Err(tree.error);
      }
      var rec := new Record();
      var failure := ParseNode(tree.value, recordSource, rec);
      if failure.Some? {
        return Err(failure.value);
      }
      r := Ok(rec.fields);
    }
  }
}
