/**
 * Concrete messages from the library's own examples, stated as lemmas
 * about the model: the splitter on a quoted span, the input format of an
 * RTRV-EQPT command, and an output format with an empty literal field.
 *
 * The lemmas take the example texts as parameters equal to them, so that
 * the verifier reasons about them step by step instead of evaluating
 * every function on them at once.
 */
module Witnesses {
  import opened Wrappers
  import opened Split
  import opened Ast
  import opened Rendering
  import opened Matching
  import opened Formats
  import opened Commands

  /** Text with neither a quote nor the delimiter `d`. */
  predicate Clear(t: string, d: char)
  {
    forall k :: 0 <= k < |t| ==> t[k] != d && t[k] != '"'
  }

  /** Two texts clear of `d` and quotes stay so when put together. */
  lemma ClearConcat(a: string, b: string, d: char)
    requires Clear(a, d) && Clear(b, d)
    ensures Clear(a + b, d)
  {
    forall k | 0 <= k < |a + b| ensures (a + b)[k] != d && (a + b)[k] != '"' {
      if k >= |a| { assert (a + b)[k] == b[k - |a|]; }
    }
  }

  /** Parts with neither a quote nor the delimiter split apart again after being joined. */
  lemma SplitClear(parts: seq<string>, d: char)
    requires |parts| >= 1 && forall i :: 0 <= i < |parts| ==> Clear(parts[i], d)
    ensures Segments(Join(parts, d), d) == Ok(parts)
  {
    forall i | 0 <= i < |parts| ensures Intact(parts[i], d) {
      NoQuoteIntact(parts[i], d);
    }
    JoinSegments(parts, d);
  }

  /** A comma inside a quoted span does not split, and the quotes are kept. */
  lemma QuotedSplitExample()
    ensures Segments("a,\"b,c\",d", ',') == Ok(["a", "\"b,c\"", "d"])
  {
    var parts := ["a", "\"b,c\"", "d"];
    NoQuoteIntact("a", ',');
    NoQuoteIntact("d", ',');
    assert Intact("", ',');
    IntactUnit("\"b,c\"", "", ',');
    assert "\"b,c\"" + "" == "\"b,c\"";
    assert Join(parts[2..], ',') == "d";
    assert Join(parts[1..], ',') == "\"b,c\",d";
    assert Join(parts, ',') == "a,\"b,c\",d";
    JoinSegments(parts, ',');
  }

  // ---------------------------------------------------------------------
  // Segments of a format string
  // ---------------------------------------------------------------------

  /** A name that `<name>` carries through `optional_variable`. */
  predicate PlainName(x: string)
  {
    forall k :: 0 <= k < |x| ==> x[k] != '"' && x[k] != ':' && x[k] != ',' && x[k] != '=' && x[k] != '\n'
  }

  /** `<x>` is the variable `x`. */
  lemma VariableSegment(x: string)
    requires PlainName(x)
    ensures Classify("<" + x + ">") == Ok(Variable(x))
  {
    var t := "<" + x + ">";
    assert t[1..|t| - 1] == x;
    assert '=' !in t && ',' !in t by {
      forall k | 0 <= k < |t| ensures t[k] != '=' && t[k] != ',' {
        if 0 < k < |t| - 1 { assert t[k] == x[k - 1]; }
      }
    }
    assert '\n' !in t[1..|t| - 1];
  }

  /** `optional_variable` takes the brackets off `<x>`. */
  lemma Unbracket(x: string)
    requires '\n' !in x
    ensures OptionalVariable("<" + x + ">") == x
  {
    var t := "<" + x + ">";
    assert t[1..|t| - 1] == x;
  }

  /** Text with no '"', ':', ',' or '=' that is not `<...>` is a literal. */
  lemma LiteralSegment(t: string)
    requires PlainName(t) && !(|t| >= 1 && t[0] == '<' && t[|t| - 1] == '>')
    ensures Classify(t) == Ok(Literal(t))
  {
    assert '=' !in t && ',' !in t by {
      forall k | 0 <= k < |t| ensures t[k] != '=' && t[k] != ',' {
      }
    }
  }

  /** `a,b` with two tokens is the comma group of their variable names. */
  lemma CommaSegment(a: string, b: string)
    requires PlainName(a) && PlainName(b)
    ensures Classify(a + "," + b) == Ok(CommaSeparatedVariables([OptionalVariable(a), OptionalVariable(b)]))
  {
    var t := a + "," + b;
    assert Segments(t, ',') == Ok([a, b]) by {
      SplitClear([a, b], ',');
      assert Join([a, b], ',') == t;
    }
    assert t[|a|] == ',';
    assert '=' !in t by {
      forall k | 0 <= k < |t| ensures t[k] != '=' {
        if k < |a| { assert t[k] == a[k]; }
        else if k > |a| { assert t[k] == b[k - |a| - 1]; }
      }
    }
    assert OptionalVariables([a, b]) == [OptionalVariable(a), OptionalVariable(b)];
  }

  /** `k=v` as a keyword group of one pair. */
  lemma KeywordSegment(k: string, v: string)
    requires PlainName(k) && PlainName(v)
    ensures Classify(k + "=" + v) == Ok(CommaSeparatedKeywordVariables([(k, OptionalVariable(v))]))
  {
    var t := k + "=" + v;
    assert Segments(t, ',') == Ok([t]) by {
      assert Clear(t, ',') by {
        forall j | 0 <= j < |t| ensures t[j] != ',' && t[j] != '"' {
          if j < |k| { assert t[j] == k[j]; }
          else if j > |k| { assert t[j] == v[j - |k| - 1]; }
        }
      }
      SplitClear([t], ',');
    }
    assert '=' in t by {
      assert t[|k|] == '=';
    }
    var pairs := [(k, OptionalVariable(v))];
    assert KeywordPairs([t]) == Ok(pairs) by {
      KeywordPairsCons(k, v, []);
      assert [t] + [] == [t];
      assert pairs + [] == pairs;
    }
    HashOfDistinct(pairs);
    assert KeywordsFromString(t) == Ok(CommaSeparatedKeywordVariables(pairs));
  }

  /** Two texts clear of `d` are the two segments of their join by `d`. */
  lemma TwoSegments(p1: string, p2: string, d: char)
    requires Clear(p1, d) && Clear(p2, d)
    ensures Segments(p1 + [d] + p2, d) == Ok([p1, p2])
  {
    SplitClear([p1, p2], d);
    assert Join([p1, p2], d) == p1 + [d] + p2;
  }

  /** The pairs `k1=v1` and `k2=v2`, in that order. */
  lemma TwoPairs(k1: string, v1: string, k2: string, v2: string)
    requires PlainName(k1) && PlainName(k2)
    ensures KeywordPairs([k1 + "=" + v1, k2 + "=" + v2]) == Ok([(k1, OptionalVariable(v1)), (k2, OptionalVariable(v2))])
  {
    var p1 := k1 + "=" + v1;
    var p2 := k2 + "=" + v2;
    var pairs := [(k1, OptionalVariable(v1)), (k2, OptionalVariable(v2))];
    KeywordPairsCons(k2, v2, []);
    assert [p2] + [] == [p2];
    KeywordPairsCons(k1, v1, [p2]);
    assert [p1] + [p2] == [p1, p2];
    assert [pairs[1]] + [] == pairs[1..];
    assert [pairs[0]] + pairs[1..] == pairs;
  }

  /** `k1=v1,k2=v2` as a keyword group of two pairs, in that order. */
  lemma KeywordsSegment(k1: string, v1: string, k2: string, v2: string)
    requires PlainName(k1) && PlainName(v1) && PlainName(k2) && PlainName(v2) && k1 != k2
    ensures Classify(k1 + "=" + v1 + "," + k2 + "=" + v2)
         == Ok(CommaSeparatedKeywordVariables([(k1, OptionalVariable(v1)), (k2, OptionalVariable(v2))]))
  {
    var p1 := k1 + "=" + v1;
    var p2 := k2 + "=" + v2;
    var t := p1 + "," + p2;
    assert t == k1 + "=" + v1 + "," + k2 + "=" + v2;
    assert Segments(t, ',') == Ok([p1, p2]) by {
      PairClear(k1, v1);
      PairClear(k2, v2);
      TwoSegments(p1, p2, ',');
    }
    assert '=' in t by {
      assert t[|k1|] == '=';
    }
    var pairs := [(k1, OptionalVariable(v1)), (k2, OptionalVariable(v2))];
    assert KeywordPairs([p1, p2]) == Ok(pairs) by {
      TwoPairs(k1, v1, k2, v2);
    }
    HashOfDistinct(pairs);
    assert KeywordsFromString(t) == Ok(CommaSeparatedKeywordVariables(pairs));
  }

  /** A pair `k=v` in front of other pairs gives the keyword `k` for the variable of `v`. */
  lemma KeywordPairsCons(k: string, v: string, rest: seq<string>)
    requires PlainName(k)
    ensures KeywordPairs([k + "=" + v] + rest)
         == match KeywordPairs(rest)
            case Err(e) => Err(e)
            case Ok(r) => Ok([(k, OptionalVariable(v))] + r)
  {
    var all := [k + "=" + v] + rest;
    assert all[0] == k + "=" + v && all[1..] == rest;
    assert '=' !in k by {
      forall j | 0 <= j < |k| ensures k[j] != '=' {
      }
    }
    CutAtEqualsJoin(k, v);
  }

  /** `k=v` with plain texts has no ',' and no '"'. */
  lemma PairClear(k: string, v: string)
    requires PlainName(k) && PlainName(v)
    ensures Clear(k + "=" + v, ',')
  {
    var t := k + "=" + v;
    forall j | 0 <= j < |t| ensures t[j] != ',' && t[j] != '"' {
      if j < |k| { assert t[j] == k[j]; }
      else if j > |k| { assert t[j] == v[j - |k| - 1]; }
    }
  }

  // ---------------------------------------------------------------------
  // An input format: RTRV-EQPT
  // ---------------------------------------------------------------------

  /**
   * The format string `RTRV-EQPT:<tid1>,<tid2:<aid>:C1=<custom1>,C2=<custom2>`,
   * written piece by piece.
   */
  const EquipmentFormat: string :=
    "RTRV-EQPT" + ":" + (("<" + "tid1" + ">") + "," + "<tid2") + ":" + ("<" + "aid" + ">") + ":"
    + ("C1" + "=" + ("<" + "custom1" + ">") + "," + "C2" + "=" + ("<" + "custom2" + ">"))

  /**
   * Its tree: the unclosed `<tid2` is a variable named `<tid2`, and the
   * keyword group keeps C1 before C2.
   */
  const EquipmentTree: Node :=
    ColonSeparatedVariables([
      Literal("RTRV-EQPT"),
      CommaSeparatedVariables(["tid1", "<tid2"]),
      Variable("aid"),
      CommaSeparatedKeywordVariables([("C1", "custom1"), ("C2", "custom2")])])

  /** Segments that each classify to a node classify together to those nodes, in order. */
  lemma {:induction false} ClassifyEach(parts: seq<string>, nodes: seq<Node>)
    requires |parts| == |nodes|
    requires forall i :: 0 <= i < |parts| ==> Classify(parts[i]) == Ok(nodes[i])
    ensures ClassifyAll(parts) == Ok(nodes)
  {
    if parts != [] {
      ClassifyEach(parts[1..], nodes[1..]);
      assert [nodes[0]] + nodes[1..] == nodes;
    }
  }

  /** A format string whose ':' segments classify to `nodes` parses to the colon node of `nodes`. */
  lemma FormatOfSegments(s: string, parts: seq<string>, nodes: seq<Node>)
    requires Segments(s, ':') == Ok(parts)
    requires |parts| == |nodes|
    requires forall i :: 0 <= i < |parts| ==> Classify(parts[i]) == Ok(nodes[i])
    ensures ParseMessageFormat(JString(s)) == Ok(ColonSeparatedVariables(nodes))
  {
    ClassifyEach(parts, nodes);
  }

  /** `FormatOfSegments` for three segments. */
  lemma FormatOfThree(s: string, p0: string, p1: string, p2: string, n0: Node, n1: Node, n2: Node)
    requires Segments(s, ':') == Ok([p0, p1, p2])
    requires Classify(p0) == Ok(n0) && Classify(p1) == Ok(n1) && Classify(p2) == Ok(n2)
    ensures ParseMessageFormat(JString(s)) == Ok(ColonSeparatedVariables([n0, n1, n2]))
  {
    var parts := [p0, p1, p2];
    var nodes := [n0, n1, n2];
    forall i | 0 <= i < |parts| ensures Classify(parts[i]) == Ok(nodes[i]) {
      if i == 0 {
      } else if i == 1 {
      } else {
      }
    }
    FormatOfSegments(s, parts, nodes);
  }

  /** `FormatOfSegments` for four segments. */
  lemma FormatOfFour(s: string, p0: string, p1: string, p2: string, p3: string, n0: Node, n1: Node, n2: Node, n3: Node)
    requires Segments(s, ':') == Ok([p0, p1, p2, p3])
    requires Classify(p0) == Ok(n0) && Classify(p1) == Ok(n1) && Classify(p2) == Ok(n2) && Classify(p3) == Ok(n3)
    ensures ParseMessageFormat(JString(s)) == Ok(ColonSeparatedVariables([n0, n1, n2, n3]))
  {
    var parts := [p0, p1, p2, p3];
    var nodes := [n0, n1, n2, n3];
    forall i | 0 <= i < |parts| ensures Classify(parts[i]) == Ok(nodes[i]) {
      if i == 0 {
      } else if i == 1 {
      } else if i == 2 {
      } else {
      }
    }
    FormatOfSegments(s, parts, nodes);
  }

  /** The ':' segments of the RTRV-EQPT format string. */
  const EquipmentParts: seq<string> :=
    ["RTRV-EQPT", ("<" + "tid1" + ">") + "," + "<tid2", "<" + "aid" + ">", "C1" + "=" + ("<" + "custom1" + ">") + "," + "C2" + "=" + ("<" + "custom2" + ">")]

  lemma EquipmentSplit()
    ensures Segments(EquipmentFormat, ':') == Ok(EquipmentParts)
  {
    var parts := EquipmentParts;
    assert Join(parts[3..], ':') == parts[3];
    assert Join(parts[2..], ':') == parts[2] + ":" + parts[3];
    assert Join(parts[1..], ':') == parts[1] + ":" + parts[2] + ":" + parts[3];
    assert Join(parts, ':') == EquipmentFormat;
    assert Clear(parts[1], ':') by {
      ClearConcat("<" + "tid1", ">", ':');
      ClearConcat("<", "tid1", ':');
      ClearConcat("<" + "tid1" + ">", ",", ':');
      ClearConcat("<" + "tid1" + ">" + ",", "<tid2", ':');
    }
    assert Clear(parts[2], ':') by {
      ClearConcat("<", "aid", ':');
      ClearConcat("<" + "aid", ">", ':');
    }
    assert Clear(parts[3], ':') by {
      var c1 := "<" + "custom1" + ">";
      var c2 := "<" + "custom2" + ">";
      ClearConcat("<", "custom1", ':');
      ClearConcat("<" + "custom1", ">", ':');
      ClearConcat("<", "custom2", ':');
      ClearConcat("<" + "custom2", ">", ':');
      ClearConcat("C1", "=", ':');
      ClearConcat("C1" + "=", c1, ':');
      ClearConcat("C1" + "=" + c1, ",", ':');
      ClearConcat("C1" + "=" + c1 + ",", "C2", ':');
      ClearConcat("C1" + "=" + c1 + "," + "C2", "=", ':');
      ClearConcat("C1" + "=" + c1 + "," + "C2" + "=", c2, ':');
    }
    SplitClear(parts, ':');
  }

  lemma EquipmentTids()
    ensures Classify(("<" + "tid1" + ">") + "," + "<tid2") == Ok(CommaSeparatedVariables(["tid1", "<tid2"]))
  {
    CommaSegment(("<" + "tid1" + ">"), "<tid2");
    Unbracket("tid1");
    assert !Bracketed("<tid2");
  }

  lemma EquipmentCustoms()
    ensures Classify("C1" + "=" + ("<" + "custom1" + ">") + "," + "C2" + "=" + ("<" + "custom2" + ">"))
         == Ok(CommaSeparatedKeywordVariables([("C1", "custom1"), ("C2", "custom2")]))
  {
    KeywordsSegment("C1", ("<" + "custom1" + ">"), "C2", ("<" + "custom2" + ">"));
    Unbracket("custom1");
    Unbracket("custom2");
  }

  /** The format string parses to `EquipmentTree`. */
  lemma EquipmentParse()
    ensures ParseMessageFormat(JString(EquipmentFormat)) == Ok(EquipmentTree)
  {
    var p1 := ("<" + "tid1" + ">") + "," + "<tid2";
    var p2 := "<" + "aid" + ">";
    var p3 := "C1" + "=" + ("<" + "custom1" + ">") + "," + "C2" + "=" + ("<" + "custom2" + ">");
    var n1 := CommaSeparatedVariables(["tid1", "<tid2"]);
    var n3 := CommaSeparatedKeywordVariables([("C1", "custom1"), ("C2", "custom2")]);
    assert Segments(EquipmentFormat, ':') == Ok(["RTRV-EQPT", p1, p2, p3]) by {
      EquipmentSplit();
    }
    assert Classify("RTRV-EQPT") == Ok(Literal("RTRV-EQPT")) by {
      LiteralSegment("RTRV-EQPT");
    }
    assert Classify(p1) == Ok(n1) by {
      EquipmentTids();
    }
    assert Classify(p2) == Ok(Variable("aid")) by {
      VariableSegment("aid");
    }
    assert Classify(p3) == Ok(n3) by {
      EquipmentCustoms();
    }
    FormatOfFour(EquipmentFormat, "RTRV-EQPT", p1, p2, p3, Literal("RTRV-EQPT"), n1, Variable("aid"), n3);
  }

  /** The values of the RTRV-EQPT example: aid, tid1 and custom2, with tid2 and custom1 missing. */
  const EquipmentValues: map<string, string> := map["aid" := "MS-1", "tid1" := "first", "custom2" := "second"]

  /** A colon node of four children is their four texts joined by ':'. */
  lemma {:induction false} ColonFormatFour(n0: Node, n1: Node, n2: Node, n3: Node, values: map<string, string>,
                                           t0: string, t1: string, t2: string, t3: string)
    requires Format(n0, values) == t0 && Format(n1, values) == t1 && Format(n2, values) == t2 && Format(n3, values) == t3
    ensures Format(ColonSeparatedVariables([n0, n1, n2, n3]), values) == t0 + ":" + t1 + ":" + t2 + ":" + t3
  {
    var cs := [n0, n1, n2, n3];
    var texts := [t0, t1, t2, t3];
    assert FormatChildren(cs, values, 4) == [];
    assert FormatChildren(cs, values, 3) == texts[3..];
    assert FormatChildren(cs, values, 2) == texts[2..];
    assert FormatChildren(cs, values, 1) == texts[1..];
    assert FormatChildren(cs, values, 0) == texts;
    assert Join(texts[3..], ':') == t3;
    assert Join(texts[2..], ':') == t2 + ":" + t3;
    assert Join(texts[1..], ':') == t1 + ":" + t2 + ":" + t3;
  }

  /** The missing tid2 leaves an empty text after tid1's. */
  lemma EquipmentTidsText()
    ensures Format(CommaSeparatedVariables(["tid1", "<tid2"]), EquipmentValues) == "first" + "," + ""
  {
    assert VariableTexts(["tid1", "<tid2"], EquipmentValues) == ["first", ""];
  }

  /** Only C2, whose variable has a value, is written. */
  lemma EquipmentCustomsText()
    ensures Format(CommaSeparatedKeywordVariables([("C1", "custom1"), ("C2", "custom2")]), EquipmentValues)
         == "C2" + "=" + "second"
  {
    var kvs := [("C1", "custom1"), ("C2", "custom2")];
    assert "custom1" !in EquipmentValues && "custom2" in EquipmentValues;
    assert Assignments(kvs[1..][1..], EquipmentValues) == [];
    assert Assignments(kvs[1..], EquipmentValues) == ["C2" + "=" + "second"];
    assert Assignments(kvs, EquipmentValues) == ["C2" + "=" + "second"];
  }

  /**
   * The RTRV-EQPT input message for aid, tid1 and custom2 is
   * `RTRV-EQPT:first,:MS-1:C2=second`: the missing tid2 leaves an empty
   * field, and only C2 is written.
   */
  lemma EquipmentMessage()
    ensures Format(EquipmentTree, EquipmentValues)
         == "RTRV-EQPT" + ":" + "first" + "," + "" + ":" + "MS-1" + ":" + ("C2" + "=" + "second")
  {
    EquipmentTidsText();
    EquipmentCustomsText();
    assert Format(Variable("aid"), EquipmentValues) == "MS-1";
    ColonFormatFour(Literal("RTRV-EQPT"), CommaSeparatedVariables(["tid1", "<tid2"]), Variable("aid"),
                    CommaSeparatedKeywordVariables([("C1", "custom1"), ("C2", "custom2")]), EquipmentValues,
                    "RTRV-EQPT", "first" + "," + "", "MS-1", "C2" + "=" + "second");
  }

  // ---------------------------------------------------------------------
  // An output format with an empty literal field
  // ---------------------------------------------------------------------

  /** The format string `<from_aid>,<to_aid>::SERVICENAME=<service_name>`, piece by piece. */
  const ServiceFormat: string :=
    (("<" + "from_aid" + ">") + "," + ("<" + "to_aid" + ">")) + ":" + "" + ":"
    + ("SERVICENAME" + "=" + ("<" + "service_name" + ">"))

  /** Its tree: the empty field between the two colons is an empty literal. */
  const ServiceTree: Node :=
    ColonSeparatedVariables([
      CommaSeparatedVariables(["from_aid", "to_aid"]),
      Literal(""),
      CommaSeparatedKeywordVariables([("SERVICENAME", "service_name")])])

  /** A plain name is clear of both delimiters and has no quotes to remove. */
  lemma PlainText(x: string)
    requires PlainName(x)
    ensures Clear(x, ':') && Clear(x, ',') && RemoveQuotes(x) == x
  {
  }

  /** `<x>` for a plain name is plain too. */
  lemma BracketedPlain(x: string)
    requires PlainName(x)
    ensures PlainName("<" + x + ">")
  {
    var t := "<" + x + ">";
    forall k | 0 <= k < |t| ensures t[k] != '"' && t[k] != ':' && t[k] != ',' && t[k] != '=' && t[k] != '\n' {
      if 0 < k < |t| - 1 { assert t[k] == x[k - 1]; }
    }
  }

  /** `<x>` for a plain name is clear of ':'. */
  lemma BracketedClear(x: string)
    requires PlainName(x)
    ensures Clear("<" + x + ">", ':')
  {
    PlainText(x);
    ClearConcat("<", x, ':');
    ClearConcat("<" + x, ">", ':');
  }

  lemma ServiceSplit()
    ensures Segments(ServiceFormat, ':') == Ok([
      ("<" + "from_aid" + ">") + "," + ("<" + "to_aid" + ">"), "",
      "SERVICENAME" + "=" + ("<" + "service_name" + ">")])
  {
    var parts := [("<" + "from_aid" + ">") + "," + ("<" + "to_aid" + ">"), "",
      "SERVICENAME" + "=" + ("<" + "service_name" + ">")];
    assert Join(parts[2..], ':') == parts[2];
    assert Join(parts[1..], ':') == parts[1] + ":" + parts[2];
    assert Join(parts, ':') == ServiceFormat;
    assert Clear(parts[0], ':') by {
      BracketedClear("from_aid");
      BracketedClear("to_aid");
      ClearConcat("<" + "from_aid" + ">", ",", ':');
      ClearConcat("<" + "from_aid" + ">" + ",", "<" + "to_aid" + ">", ':');
    }
    assert Clear(parts[2], ':') by {
      BracketedClear("service_name");
      ClearConcat("SERVICENAME", "=", ':');
      ClearConcat("SERVICENAME" + "=", "<" + "service_name" + ">", ':');
    }
    SplitClear(parts, ':');
  }

  lemma ServiceKeyword()
    ensures Classify("SERVICENAME" + "=" + ("<" + "service_name" + ">"))
         == Ok(CommaSeparatedKeywordVariables([("SERVICENAME", "service_name")]))
  {
    assert PlainName("SERVICENAME");
    BracketedPlain("service_name");
    KeywordSegment("SERVICENAME", "<" + "service_name" + ">");
    Unbracket("service_name");
  }

  /** The format string parses to `ServiceTree`. */
  /** The first segment of the service format is the comma group of from_aid and to_aid. */
  lemma ServiceHead()
    ensures Classify(("<" + "from_aid" + ">") + "," + ("<" + "to_aid" + ">"))
         == Ok(CommaSeparatedVariables(["from_aid", "to_aid"]))
  {
    assert PlainName("<" + "from_aid" + ">") by {
      BracketedPlain("from_aid");
    }
    assert PlainName("<" + "to_aid" + ">") by {
      BracketedPlain("to_aid");
    }
    CommaSegment("<" + "from_aid" + ">", "<" + "to_aid" + ">");
    Unbracket("from_aid");
    Unbracket("to_aid");
  }

  /** The format string parses to `ServiceTree`. */
  lemma ServiceParse()
    ensures ParseMessageFormat(JString(ServiceFormat)) == Ok(ServiceTree)
  {
    var p0 := ("<" + "from_aid" + ">") + "," + ("<" + "to_aid" + ">");
    var p2 := "SERVICENAME" + "=" + ("<" + "service_name" + ">");
    ServiceSplit();
    ServiceHead();
    LiteralSegment("");
    ServiceKeyword();
    FormatOfThree(ServiceFormat, p0, "", p2, CommaSeparatedVariables(["from_aid", "to_aid"]), Literal(""),
                  CommaSeparatedKeywordVariables([("SERVICENAME", "service_name")]));
  }

  /**
   * `ServiceTree` on `a,b:t:`: the two names are read, the middle field
   * must be the empty literal, and an empty keyword group reads nothing.
   */
  lemma ServiceMatch(a: string, b: string, t: string)
    requires PlainName(a) && PlainName(b) && PlainName(t)
    ensures ParseRecord(ServiceTree, a + "," + b + ":" + t + ":" + "")
         == if t == "" then Ok(map["from_aid" := a, "to_aid" := b]) else Err(LiteralMismatch("", t))
  {
    var m := a + "," + b + ":" + t + ":" + "";
    var ab := a + "," + b;
    PlainText(a);
    PlainText(b);
    PlainText(t);
    assert Segments(ab, ',') == Ok([a, b]) by {
      SplitClear([a, b], ',');
      assert Join([a, b], ',') == ab;
    }
    assert Segments(m, ':') == Ok([ab, t, ""]) by {
      ClearConcat(a, ",", ':');
      ClearConcat(a + ",", b, ':');
      assert Join([ab, t, ""][1..], ':') == t + ":" + "";
      assert Join([ab, t, ""], ':') == m;
      SplitClear([ab, t, ""], ':');
    }
    var cs := ServiceTree.children;
    var rec := map["from_aid" := a, "to_aid" := b];
    assert MatchNode(cs[0], ab, map[]) == Outcome(rec, None) by {
      var ns := cs[0].names;
      assert MatchNames(ns, [a, b], 2, rec) == Outcome(rec, None);
      assert MatchNames(ns, [a, b], 1, map["from_aid" := a]) == Outcome(rec, None);
      assert MatchNames(ns, [a, b], 0, map[]) == Outcome(rec, None);
    }
    LiteralMatch("", t, rec);
    if t == "" {
      assert MatchPairs(cs[2].keywords, [""], 0, rec) == Outcome(rec, None);
      assert MatchNode(cs[2], "", rec) == Outcome(rec, None);
      assert MatchChildren(cs, [ab, t, ""], 2, rec) == Outcome(rec, None);
      assert MatchChildren(cs, [ab, t, ""], 1, rec) == Outcome(rec, None);
      assert MatchChildren(cs, [ab, t, ""], 0, map[]) == Outcome(rec, None);
    } else {
      assert MatchChildren(cs, [ab, t, ""], 1, rec) == Outcome(rec, Some(LiteralMismatch("", t)));
      assert MatchChildren(cs, [ab, t, ""], 0, map[]) == Outcome(rec, Some(LiteralMismatch("", t)));
    }
  }

  /** `asdf,asdf::` reads `asdf` for both names. */
  lemma ServiceExample()
    ensures ParseWith(JString(ServiceFormat), "asdf" + "," + "asdf" + ":" + "" + ":" + "")
         == Ok(map["from_aid" := "asdf", "to_aid" := "asdf"])
  {
    ServiceParse();
    ServiceMatch("asdf", "asdf", "");
  }

  /** `asdf,asdf:ASDF:` fails on the literal: `ASDF` is not the empty literal. */
  lemma ServiceMismatch()
    ensures ParseWith(JString(ServiceFormat), "asdf" + "," + "asdf" + ":" + "ASDF" + ":" + "")
         == Err(LiteralMismatch("", "ASDF"))
  {
    ServiceParse();
    ServiceMatch("asdf", "asdf", "ASDF");
  }

  // ---------------------------------------------------------------------
  // A command input with no variables
  // ---------------------------------------------------------------------

  /**
   * A format string that is one plain literal, such as `EXAMPLE`, is the
   * whole input message, ended by ';', whatever the values.
   */
  lemma LiteralInput(t: string, values: map<string, string>)
    requires PlainName(t) && !(|t| >= 1 && t[0] == '<' && t[|t| - 1] == '>')
    ensures InputMessage(JString(t), values) == Ok(t + ";")
  {
    PlainText(t);
    SplitClear([t], ':');
    LiteralSegment(t);
    FormatOfSegments(t, [t], [Literal(t)]);
    assert FormatChildren([Literal(t)], values, 0) == [t];
  }

  /**
   * A structured comma node whose elements are strings: `e['fields']` on a
   * string is a substring lookup, so a string containing "fields" names the
   * variable `fields` and any other string is refused.
   */
  lemma StringElements(t: string)
    requires t == "c1"
    ensures CommaFromFields(JArray([JString("fields")])) == Ok(CommaSeparatedVariables(["fields"]))
    ensures CommaFromFields(JArray([JString("my fields")])) == Ok(CommaSeparatedVariables(["fields"]))
    ensures CommaFromFields(JArray([JString(t)])).Err?
  {
    assert InfixAt("fields", "fields", 0);
    assert InfixAt("my fields", "fields", 3);
    OneElement(JString("fields"));
    OneElement(JString("my fields"));
    OneElement(JString(t));
  }

  /** A one-element structured comma node names the variable of its element. */
  lemma OneElement(e: Json)
    ensures VariableOfElement(e).Ok? ==> CommaFromFields(JArray([e])) == Ok(CommaSeparatedVariables([VariableOfElement(e).value]))
    ensures VariableOfElement(e).Err? ==> CommaFromFields(JArray([e])).Err?
  {
    var items := [e];
    assert items[1..] == [];
    assert VariablesOfElements(items[1..]) == Ok([]);
    if VariableOfElement(e).Ok? {
      var x := VariableOfElement(e).value;
      assert [x] + [] == [x];
    }
  }

  /** A structured keyword node given as an array of `[key, element]` pairs. */
  lemma PairArrayKeywords(x: Json)
    requires x == VariableJson("c1")
    ensures KeywordsFromFields(JArray([JArray([JString("C1"), x])])) == Ok(CommaSeparatedKeywordVariables([("C1", "c1")]))
  {
    VariableOfVariableJson("c1");
    assert PairOfItem(JArray([JString("C1"), x])) == Ok(("C1", "c1"));
    var items := [JArray([JString("C1"), x])];
    assert items[1..] == [] && KeywordsOfItems(items[1..]) == Ok([]);
    assert [("C1", "c1")] + [] == [("C1", "c1")];
    assert KeywordsOfItems([JArray([JString("C1"), x])]) == Ok([("C1", "c1")]);
    HashOfDistinct([("C1", "c1")]);
  }
}
