/**
 * lib/tl1/command.rb: a command pairs the format of its input message with
 * the format, if any, of the records of its output message.
 *
 * `InputMessage` and `OutputOf` say what `input` and `parse_output` give;
 * the `Command` class holds the two format objects and is proved to give
 * exactly that.  The lemmas tie them to the response grammar of module
 * Responses and to the read-back theorem of module ReadBack.
 */
module Commands {
  import opened Wrappers
  import opened Ast
  import opened Rendering
  import opened ReadBack
  import opened Scanning
  import opened Responses
  import opened Formats

  /** What `parse_output` gives: the message itself, or one record hash per record. */
  datatype Output = Raw(text: string) | Records(records: seq<map<string, string>>)

  /** `input`: the message the input format writes for the values, ended by ';'. */
  function InputMessage(source: Json, values: map<string, string>): (r: Result<string>)
  {
    match FormatWith(source, values)
    case Err(e) => Err(e)
    case Ok(text) => Ok(text + ";")
  }

  /**
   * The record texts parsed one after the other, as `map` does: the list of
   * their records, or the first error raised.
   */
  function ParseAll(source: Json, texts: seq<string>): (r: Result<seq<map<string, string>>>)
    ensures r.Ok? <==> forall i :: 0 <= i < |texts| ==> ParseWith(source, texts[i]).Ok?
    ensures r.Ok? ==> |r.value| == |texts|
    ensures r.Ok? ==> forall i {:trigger r.value[i]} :: 0 <= i < |texts| ==> ParseWith(source, texts[i]) == Ok(r.value[i])
  {
    if texts == [] then Ok([])
    else
      var first :- ParseWith(source, texts[0]);
      var rest :- ParseAll(source, texts[1..]);
      assert forall i :: 1 <= i < |texts| ==> texts[i] == texts[1..][i - 1];
      Ok([first] + rest)
  }

  /** `parse_output`: without an output format the message itself, else the records of the message, each parsed. */
  function OutputOf(outputSource: Option<Json>, message: string): (r: Result<Output>)
  {
    if outputSource.None? then Ok(Raw(message))
    else
      match RecordList(message)
      case Err(e) => Err(e)
      case Ok(texts) =>
        match ParseAll(outputSource.value, texts)
        case Err(e) => Err(e)
        case Ok(records) => Ok(Records(records))
  }

  /**
   * `input` ends the message with its one terminating ';', and what comes
   * before it is the formatted message; a failing format fails the input.
   */
  lemma InputTerminated(source: Json, values: map<string, string>)
    ensures InputMessage(source, values).Ok? <==> ParseMessageFormat(source).Ok?
    ensures InputMessage(source, values).Ok? ==>
              var m := InputMessage(source, values).value;
              && |m| >= 1 && m[|m| - 1] == ';'
              && FormatWith(source, values) == Ok(m[..|m| - 1])
  {
  }

  /**
   * A failing record stops `parse_output` at the first record that fails:
   * every record before it parses, and its error is the one raised.
   */
  lemma {:induction false} ParseAllFirstError(source: Json, texts: seq<string>)
    ensures ParseAll(source, texts).Err? ==>
              exists i :: && 0 <= i < |texts|
                          && ParseWith(source, texts[i]) == Err(ParseAll(source, texts).error)
                          && forall j :: 0 <= j < i ==> ParseWith(source, texts[j]).Ok?
  {
    if texts != [] && ParseWith(source, texts[0]).Ok? && ParseAll(source, texts).Err? {
      var rest := texts[1..];
      var e := ParseAll(source, texts).error;
      assert ParseAll(source, rest) == Err(e);
      ParseAllFirstError(source, rest);
      var k :| && 0 <= k < |rest|
               && ParseWith(source, rest[k]) == Err(e)
               && forall j :: 0 <= j < k ==> ParseWith(source, rest[j]).Ok?;
      assert texts[k + 1] == rest[k];
      forall j | 0 <= j < k + 1 ensures ParseWith(source, texts[j]).Ok? {
        if j > 0 {
          assert texts[j] == rest[j - 1];
        }
      }
    }
  }

  /**
   * Without an output format the message comes back as it is; with one, a
   * message with no record gives no record, even from a format that cannot
   * be parsed, since `parse` is never called.
   */
  lemma OutputWithoutRecords(outputSource: Option<Json>, message: string)
    ensures outputSource.None? ==> OutputOf(outputSource, message) == Ok(Raw(message))
    ensures outputSource.Some? && RecordList(message) == Ok([]) ==> OutputOf(outputSource, message) == Ok(Records([]))
  {
  }

  /**
   * `parse_output` on a well-formed response: one record hash per record
   * written in it, in order, each the record its text parses to.
   */
  lemma ResponseParsed(source: Json, message: string, bs: seq<Block>)
    requires (forall j :: 0 <= j < |bs| ==> ValidBlock(bs[j])) && ResponseAt(message, bs)
    ensures OutputOf(Some(source), message) == (
              match ParseAll(source, AllTexts(bs))
              case Err(e) => Err(e)
              case Ok(records) => Ok(Records(records)))
  {
    ResponseRecords(message, bs);
  }

  /**
   * A response whose records were each written by a readable output format,
   * with plain values, is parsed by that format into the values of each
   * record's variables, one record hash per record, in order.
   */
  lemma {:induction false} FormattedResponseParsed(source: Json, message: string, bs: seq<Block>, values: seq<map<string, string>>)
    requires (forall j :: 0 <= j < |bs| ==> ValidBlock(bs[j])) && ResponseAt(message, bs)
    requires Readable(source) && |values| == |AllTexts(bs)|
    requires forall i :: 0 <= i < |values| ==> PlainValues(values[i]) && FormatWith(source, values[i]) == Ok(AllTexts(bs)[i])
    ensures OutputOf(Some(source), message).Ok?
    ensures var out := OutputOf(Some(source), message).value;
            && out.Records? && |out.records| == |values|
            && forall i :: 0 <= i < |values| ==> out.records[i] == ReadValues(source, values[i])
  {
    var texts := AllTexts(bs);
    forall i | 0 <= i < |texts| ensures ParseWith(source, texts[i]) == Ok(ReadValues(source, values[i])) {
      MessageReadBack(source, values[i]);
    }
    ResponseParsed(source, message, bs);
  }

  /** `TL1::Command`: an input format and, possibly, an output format. */
  class Command {
    const inputFormat: InputFormat
    const outputFormat: Option<OutputFormat>

    /** Both formats keep their cached trees true to their sources. */
    predicate Valid()
      reads inputFormat, if outputFormat.Some? then {outputFormat.value} else {}
    {
      && inputFormat.Valid()
      && (outputFormat.Some? ==> outputFormat.value.Valid())
    }

    /** `output && OutputFormat.new(output)`: a command without an output format has none. */
    constructor (input: Json, output: Option<Json>)
      ensures Valid() && inputFormat.source == input && fresh(inputFormat)
      ensures outputFormat.Some? <==> output.Some?
      ensures outputFormat.Some? ==> outputFormat.value.source == output.value && fresh(outputFormat.value)
    {
      inputFormat := new InputFormat(input);
      if output.Some? {
        var f := new OutputFormat(output.value);
        outputFormat := Some(f);
      } else {
        outputFormat := None;
      }
    }

    /** The source of the output format, if there is one. */
    function OutputSource(): (r: Option<Json>)
    {
      if outputFormat.Some? then Some(outputFormat.value.source) else None
    }

    /** `input`: the message for the values, ended by ';'. */
    method Input(values: map<string, string>) returns (r: Result<string>)
      requires Valid()
      modifies inputFormat
      ensures Valid() && r == InputMessage(inputFormat.source, values)
      ensures inputFormat.ast == CachedTree(inputFormat.source)
    {
      var text := inputFormat.Format(values);
      if text.Err? {
        return Err(text.error);
      }
      r := Ok(text.value + ";");
    }

    /** `record_sources`: the record texts of an output message. */
    method RecordSources(output: string) returns (r: Result<seq<string>>)
      ensures r == RecordList(output)
    {
      var scanner := new OutputScanner(output);
      r := scanner.Records();
    }

    /** `parse_output`: the message itself, or the records of its record texts, each parsed in turn. */
    method ParseOutput(output: string) returns (r: Result<Output>)
      requires Valid()
      modifies if outputFormat.Some? then {outputFormat.value} else {}
      ensures Valid() && r == OutputOf(OutputSource(), output)
      ensures outputFormat.Some? ==>
                outputFormat.value.ast == (if RecordList(output).Ok? && RecordList(output).value != []
                                           then CachedTree(outputFormat.value.source)
                                           else old(outputFormat.value.ast))
    {
      if outputFormat.None? {
        return Ok(Raw(output));
      }
      var format := outputFormat.value;
      var sources := RecordSources(output);
      if sources.Err? {
        return Err(sources.error);
      }
      var texts := sources.value;
      var records: seq<map<string, string>> := [];
      var k := 0;
      ContinuedFromNothing(ParseAll(format.source, texts));
      assert texts[k..] == texts;
      while k < |texts|
        invariant Valid() && k <= |texts|
        invariant ParseAll(format.source, texts) == Continued(records, ParseAll(format.source, texts[k..]))
        invariant format.ast == (if k > 0 then CachedTree(format.source) else old(format.ast))
      {
        assert texts[k..][1..] == texts[k + 1..];
        var record := format.Parse(texts[k]);
        if record.Err? {
          return Err(record.error);
        }
        ContinuedStep(records, record.value, ParseAll(format.source, texts[k + 1..]));
        records := records + [record.value];
        k := k + 1;
      }
      assert texts[k..] == [];
      assert records + [] == records;
      r := Ok(Records(records));
    }
  }

  /** The records parsed so far followed by what the rest gives, or the error the rest raises. */
  function Continued(done: seq<map<string, string>>, rest: Result<seq<map<string, string>>>): (r: Result<seq<map<string, string>>>)
    ensures rest.Err? ==> r == rest
  {
    match rest
    case Err(e) => Err(e)
    case Ok(records) => Ok(done + records)
  }

  /** Nothing parsed yet: the rest is the whole. */
  lemma ContinuedFromNothing(rest: Result<seq<map<string, string>>>)
    ensures Continued([], rest) == rest
  {
    if rest.Ok? {
      assert [] + rest.value == rest.value;
    }
  }

  /** One more record parsed moves from the rest to what is done. */
  lemma ContinuedStep(done: seq<map<string, string>>, first: map<string, string>, rest: Result<seq<map<string, string>>>)
    ensures Continued(done, match rest case Err(e) => Err(e) case Ok(more) => Ok([first] + more)) == Continued(done + [first], rest)
  {
    if rest.Ok? {
      assert done + ([first] + rest.value) == done + [first] + rest.value;
    }
  }
}
