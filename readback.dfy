/**
 * `format` followed by `parse` on the same tree: a message built from a
 * value map reads back, through the same tree, the values of its
 * variables.
 *
 * This holds when nothing in the message can be mistaken for structure:
 * the values hold no ':', ',' or '"', literal texts no ':' or '"', each
 * comma group has a variable, and keywords are distinct and hold no '='.
 * Groups are one level deep, as every format string gives them.
 */
module ReadBack {
  import opened Wrappers
  import opened Split
  import opened Ast
  import opened Rendering
  import opened Matching

  /** Text with no ':' and no '"': `split` on ':' keeps it as one segment. */
  predicate NoColonQuote(t: string)
  {
    forall k :: 0 <= k < |t| ==> t[k] != ':' && t[k] != '"'
  }

  /** Text with no ':', ',' or '"'. */
  predicate Plain(t: string)
  {
    forall k :: 0 <= k < |t| ==> t[k] != ':' && t[k] != ',' && t[k] != '"'
  }

  /** Every value is plain text. */
  predicate PlainValues(values: map<string, string>)
  {
    forall x :: x in values ==> Plain(values[x])
  }

  /** A child of the root whose text cannot be mistaken for structure. */
  predicate Clean(c: Node)
  {
    match c
    case Literal(t) => NoColonQuote(t)
    case Variable(_) => true
    case ColonSeparatedVariables(_) => false
    case CommaSeparatedVariables(ns) => |ns| >= 1
    case CommaSeparatedKeywordVariables(kvs) =>
      DistinctKeys(kvs) && forall i :: 0 <= i < |kvs| ==> Plain(kvs[i].0) && '=' !in kvs[i].0
  }

  /** Every child of a root from index `from` on is clean. */
  predicate CleanChildren(cs: seq<Node>)
  {
    forall i :: 0 <= i < |cs| ==> Clean(cs[i])
  }

  /** The variables a message of a child gives a value to: keyword variables only when present. */
  function Assigned(c: Node, values: map<string, string>): set<string>
    requires !c.ColonSeparatedVariables?
  {
    match c
    case Literal(_) => {}
    case Variable(x) => {x}
    case CommaSeparatedVariables(ns) => set i | 0 <= i < |ns| :: ns[i]
    case CommaSeparatedKeywordVariables(kvs) => set i | 0 <= i < |kvs| && kvs[i].1 in values :: kvs[i].1
  }

  /** The variables the children of a root from index `from` on give a value to. */
  function AssignedFrom(cs: seq<Node>, from: nat, values: map<string, string>): set<string>
    requires from <= |cs| && CleanChildren(cs)
    decreases |cs| - from
  {
    if from == |cs| then {} else Assigned(cs[from], values) + AssignedFrom(cs, from + 1, values)
  }

  /** `rec` with the variables in `names` set to their text in `values`. */
  function Fill(rec: map<string, string>, names: set<string>, values: map<string, string>): map<string, string>
  {
    map x | x in rec.Keys + names :: if x in names then ValueOf(values, x) else rec[x]
  }

  /** Filling nothing changes nothing. */
  lemma FillNothing(rec: map<string, string>, values: map<string, string>)
    ensures Fill(rec, {}, values) == rec
  {
  }

  /** Filling one set of names and then another is filling both. */
  lemma FillTwice(rec: map<string, string>, a: set<string>, b: set<string>, values: map<string, string>)
    ensures Fill(Fill(rec, a, values), b, values) == Fill(rec, a + b, values)
  {
  }

  /** Assigning one variable its text is filling that one name. */
  lemma FillOne(rec: map<string, string>, x: string, values: map<string, string>)
    ensures rec[x := ValueOf(values, x)] == Fill(rec, {x}, values)
  {
  }

  /** Plain text carries no quotes for `remove_quotes` to take off. */
  lemma PlainUnquoted(t: string)
    requires NoColonQuote(t)
    ensures RemoveQuotes(t) == t
  {
    if |t| >= 1 {
      assert t[0] != '"';
    }
  }

  /** A text joined from parts without ':' and '"' by another delimiter has neither. */
  lemma {:induction false} JoinNoColonQuote(parts: seq<string>, d: char)
    requires d != ':' && d != '"'
    requires forall i :: 0 <= i < |parts| ==> NoColonQuote(parts[i])
    ensures NoColonQuote(Join(parts, d))
  {
    if |parts| >= 2 {
      JoinNoColonQuote(parts[1..], d);
      var rest := Join(parts[1..], d);
      assert Join(parts, d) == parts[0] + ([d] + rest);
      forall k | 0 <= k < |Join(parts, d)| ensures Join(parts, d)[k] != ':' && Join(parts, d)[k] != '"' {
        if k < |parts[0]| {
          assert Join(parts, d)[k] == parts[0][k];
        } else if k > |parts[0]| {
          assert Join(parts, d)[k] == rest[k - |parts[0]| - 1];
        }
      }
    }
  }

  /** Plain text with no ':' and '"' is intact for either delimiter. */
  lemma PlainIntact(t: string, d: char)
    requires Plain(t) && (d == ':' || d == ',')
    ensures Intact(t, d) && NoColonQuote(t)
  {
    NoQuoteIntact(t, d);
  }

  /** `keyword=value` with a plain keyword and value has no ',' and no '"'. */
  lemma AssignmentPlain(k: string, v: string)
    requires Plain(k) && Plain(v)
    ensures var a := k + "=" + v; Intact(a, ',') && NoColonQuote(a)
  {
    var a := k + "=" + v;
    forall i | 0 <= i < |a| ensures a[i] != ',' && a[i] != '"' && a[i] != ':' {
      if i < |k| {
        assert a[i] == k[i];
      } else if i > |k| {
        assert a[i] == v[i - |k| - 1];
      }
    }
    NoQuoteIntact(a, ',');
  }

  /** The message of a clean child has no ':' and no '"'. */
  lemma CleanText(c: Node, values: map<string, string>)
    requires Clean(c) && PlainValues(values)
    ensures NoColonQuote(Format(c, values))
  {
    match c
    case Literal(_) =>
    case Variable(x) =>
    case CommaSeparatedVariables(ns) =>
      var parts := VariableTexts(ns, values);
      forall i | 0 <= i < |parts| ensures NoColonQuote(parts[i]) {
        assert parts[i] == ValueOf(values, ns[i]);
      }
      JoinNoColonQuote(parts, ',');
    case CommaSeparatedKeywordVariables(kvs) =>
      var parts := Assignments(kvs, values);
      AssignmentsPresent(kvs, values);
      forall i | 0 <= i < |parts| ensures NoColonQuote(parts[i]) {
        KeywordAssignmentPlain(kvs, values, i);
      }
      JoinNoColonQuote(parts, ',');
  }

  /** Each `keyword=value` of a clean keyword group is intact for ',' and has no ':' or '"'. */
  lemma KeywordAssignmentPlain(kvs: seq<(string, string)>, values: map<string, string>, i: nat)
    requires Clean(CommaSeparatedKeywordVariables(kvs)) && PlainValues(values)
    requires i < |Present(kvs, values)|
    ensures i < |Assignments(kvs, values)|
    ensures Intact(Assignments(kvs, values)[i], ',') && NoColonQuote(Assignments(kvs, values)[i])
  {
    AssignmentsPresent(kvs, values);
    var p := Present(kvs, values);
    var j :| 0 <= j < |kvs| && kvs[j] == p[i];
    AssignmentPlain(p[i].0, values[p[i].1]);
  }

  /** The text of child `i` is the `i - from`-th text of the children from `from` on. */
  lemma {:induction false} FormatChildrenAt(cs: seq<Node>, values: map<string, string>, from: nat, i: nat)
    requires from <= i < |cs|
    ensures FormatChildren(cs, values, from)[i - from] == Format(cs[i], values)
    decreases i - from
  {
    if from < i {
      FormatChildrenAt(cs, values, from + 1, i);
    }
  }

  /** The values of a comma group, read back from `k` on from their texts, fill its variables from `k` on. */
  lemma {:induction false} NamesReadBack(ns: seq<string>, values: map<string, string>, texts: seq<string>, k: nat, rec: map<string, string>)
    requires PlainValues(values) && k <= |ns| == |texts|
    requires forall i :: 0 <= i < |ns| ==> texts[i] == ValueOf(values, ns[i])
    ensures MatchNames(ns, texts, k, rec) == Outcome(Fill(rec, set i | k <= i < |ns| :: ns[i], values), None)
    decreases |ns| - k
  {
    if k == |ns| {
      FillNothing(rec, values);
    } else {
      assert texts[k] == ValueOf(values, ns[k]);
      PlainUnquoted(texts[k]);
      var next := rec[ns[k] := texts[k]];
      NamesReadBack(ns, values, texts, k + 1, next);
      FillOne(rec, ns[k], values);
      FillTwice(rec, {ns[k]}, set i | k + 1 <= i < |ns| :: ns[i], values);
      assert (set i | k <= i < |ns| :: ns[i]) == {ns[k]} + set i | k + 1 <= i < |ns| :: ns[i];
    }
  }

  /** A comma group reads back the values of all its variables. */
  lemma CommaReadBack(ns: seq<string>, values: map<string, string>, rec: map<string, string>)
    requires |ns| >= 1 && PlainValues(values)
    ensures MatchNode(CommaSeparatedVariables(ns), Format(CommaSeparatedVariables(ns), values), rec)
            == Outcome(Fill(rec, Assigned(CommaSeparatedVariables(ns), values), values), None)
  {
    var texts := VariableTexts(ns, values);
    forall i | 0 <= i < |texts| ensures Intact(texts[i], ',') {
      PlainIntact(texts[i], ',');
    }
    JoinSegments(texts, ',');
    NamesReadBack(ns, values, texts, 0, rec);
  }

  /** Pair `k` of a clean keyword group gives the variable of its keyword its value back. */
  lemma PairReadBack(kvs: seq<(string, string)>, values: map<string, string>, k: nat, rec: map<string, string>)
    requires Clean(CommaSeparatedKeywordVariables(kvs)) && PlainValues(values)
    requires k < |Present(kvs, values)|
    ensures k < |Assignments(kvs, values)|
    ensures var x := Present(kvs, values)[k].1;
            MatchPair(kvs, Assignments(kvs, values)[k], rec) == Outcome(rec[x := ValueOf(values, x)], None)
  {
    AssignmentsPresent(kvs, values);
    var p := Present(kvs, values);
    var x := p[k].1;
    var j :| 0 <= j < |kvs| && kvs[j] == p[k];
    CutAtEqualsJoin(p[k].0, values[x]);
    LookupEntry(kvs, j);
    PlainIntact(values[x], ',');
    PlainUnquoted(values[x]);
  }

  /** The pairs of a keyword group, read back from `k` on, fill the present variables from `k` on. */
  lemma {:induction false} PairsReadBack(kvs: seq<(string, string)>, values: map<string, string>, k: nat, rec: map<string, string>)
    requires Clean(CommaSeparatedKeywordVariables(kvs)) && PlainValues(values)
    requires k <= |Present(kvs, values)|
    ensures var p := Present(kvs, values);
            MatchPairs(kvs, Assignments(kvs, values), k, rec) == Outcome(Fill(rec, set i | k <= i < |p| :: p[i].1, values), None)
    decreases |Present(kvs, values)| - k
  {
    var p := Present(kvs, values);
    if k == |p| {
      FillNothing(rec, values);
    } else {
      var x := p[k].1;
      PairReadBack(kvs, values, k, rec);
      var next := rec[x := ValueOf(values, x)];
      PairsReadBack(kvs, values, k + 1, next);
      FillOne(rec, x, values);
      FillTwice(rec, {x}, set i | k + 1 <= i < |p| :: p[i].1, values);
      assert (set i | k <= i < |p| :: p[i].1) == {x} + set i | k + 1 <= i < |p| :: p[i].1;
    }
  }

  /** The variables named by the present keywords are the group's variables that have a value. */
  lemma PresentVariables(kvs: seq<(string, string)>, values: map<string, string>)
    ensures var p := Present(kvs, values);
            (set i | 0 <= i < |p| :: p[i].1) == Assigned(CommaSeparatedKeywordVariables(kvs), values)
  {
    AssignmentsPresent(kvs, values);
    var p := Present(kvs, values);
    forall x | x in Assigned(CommaSeparatedKeywordVariables(kvs), values) ensures x in set i | 0 <= i < |p| :: p[i].1 {
      var j :| 0 <= j < |kvs| && kvs[j].1 in values && kvs[j].1 == x;
      var i :| 0 <= i < |p| && p[i] == kvs[j];
      assert p[i].1 == x;
    }
    forall x | x in set i | 0 <= i < |p| :: p[i].1 ensures x in Assigned(CommaSeparatedKeywordVariables(kvs), values) {
      var i :| 0 <= i < |p| && p[i].1 == x;
      var j :| 0 <= j < |kvs| && kvs[j] == p[i];
      assert kvs[j].1 in values && kvs[j].1 == x;
    }
  }

  /** A keyword group reads back the values of the keywords it wrote, and of no other. */
  lemma KeywordsReadBack(kvs: seq<(string, string)>, values: map<string, string>, rec: map<string, string>)
    requires Clean(CommaSeparatedKeywordVariables(kvs)) && PlainValues(values)
    ensures MatchNode(CommaSeparatedKeywordVariables(kvs), Format(CommaSeparatedKeywordVariables(kvs), values), rec)
            == Outcome(Fill(rec, Assigned(CommaSeparatedKeywordVariables(kvs), values), values), None)
  {
    AssignmentsPresent(kvs, values);
    var pairs := Assignments(kvs, values);
    if pairs == [] {
      assert Segments("", ',') == Ok([""]);
      assert MatchPairs(kvs, [""], 1, rec) == Outcome(rec, None);
      FillNothing(rec, values);
      PresentVariables(kvs, values);
      var p := Present(kvs, values);
      assert (set i | 0 <= i < |p| :: p[i].1) == {};
    } else {
      forall i | 0 <= i < |pairs| ensures Intact(pairs[i], ',') {
        KeywordAssignmentPlain(kvs, values, i);
      }
      JoinSegments(pairs, ',');
      PairsReadBack(kvs, values, 0, rec);
      PresentVariables(kvs, values);
    }
  }

  /** A clean child reads back, from its own message, the values of the variables it gave one. */
  lemma ChildReadBack(c: Node, values: map<string, string>, rec: map<string, string>)
    requires Clean(c) && PlainValues(values)
    ensures MatchNode(c, Format(c, values), rec) == Outcome(Fill(rec, Assigned(c, values), values), None)
  {
    match c
    case Literal(_) =>
      FillNothing(rec, values);
    case Variable(x) =>
      PlainUnquoted(ValueOf(values, x));
      FillOne(rec, x, values);
    case CommaSeparatedVariables(ns) =>
      CommaReadBack(ns, values, rec);
    case CommaSeparatedKeywordVariables(kvs) =>
      KeywordsReadBack(kvs, values, rec);
  }

  /** `texts` are the messages of the children `cs`, one each, in order. */
  predicate TextsOf(cs: seq<Node>, values: map<string, string>, texts: seq<string>)
  {
    |texts| == |cs| && forall i :: 0 <= i < |cs| ==> texts[i] == Format(cs[i], values)
  }

  /** The children of a root, read back from `k` on from their own messages, fill the variables they gave a value to. */
  lemma {:induction false} ChildrenReadBack(cs: seq<Node>, values: map<string, string>, texts: seq<string>, k: nat, rec: map<string, string>)
    requires CleanChildren(cs) && PlainValues(values) && TextsOf(cs, values, texts) && k <= |cs|
    ensures MatchChildren(cs, texts, k, rec) == Outcome(Fill(rec, AssignedFrom(cs, k, values), values), None)
    decreases |cs| - k
  {
    if k == |cs| {
      FillNothing(rec, values);
    } else {
      var next := Fill(rec, Assigned(cs[k], values), values);
      assert MatchChildren(cs, texts, k, rec) == MatchChildren(cs, texts, k + 1, next) by {
        ChildReadBack(cs[k], values, rec);
        ChildrenStep(cs, texts, k, rec, next);
      }
      ChildrenReadBack(cs, values, texts, k + 1, next);
      FillTwice(rec, Assigned(cs[k], values), AssignedFrom(cs, k + 1, values), values);
    }
  }

  /** A child that reads its segment without failure hands its record on to the next child. */
  lemma ChildrenStep(cs: seq<Node>, texts: seq<string>, k: nat, rec: map<string, string>, next: map<string, string>)
    requires k < |cs| && k < |texts| && MatchNode(cs[k], texts[k], rec) == Outcome(next, None)
    ensures MatchChildren(cs, texts, k, rec) == MatchChildren(cs, texts, k + 1, next)
  {
  }

  /**
   * `parse` of the message `format` built, through the same tree, gives
   * every variable of the message its value back: each positional
   * variable its value or the empty text, each keyword variable its value
   * when it had one.
   */
  lemma FormatThenParse(cs: seq<Node>, values: map<string, string>)
    requires |cs| >= 1 && CleanChildren(cs) && PlainValues(values)
    ensures ParseRecord(ColonSeparatedVariables(cs), Format(ColonSeparatedVariables(cs), values))
            == Ok(map x | x in AssignedFrom(cs, 0, values) :: ValueOf(values, x))
  {
    RootReadBack(cs, values);
    var names := AssignedFrom(cs, 0, values);
    assert Fill(map[], names, values) == map x | x in names :: ValueOf(values, x);
  }

  /** The root splits its message back into the children's texts, and each reads back its values. */
  lemma RootReadBack(cs: seq<Node>, values: map<string, string>)
    requires |cs| >= 1 && CleanChildren(cs) && PlainValues(values)
    ensures MatchNode(ColonSeparatedVariables(cs), Format(ColonSeparatedVariables(cs), values), map[])
            == Outcome(Fill(map[], AssignedFrom(cs, 0, values), values), None)
  {
    var texts := FormatChildren(cs, values, 0);
    forall i | 0 <= i < |texts| ensures texts[i] == Format(cs[i], values) && Intact(texts[i], ':') {
      FormatChildrenAt(cs, values, 0, i);
      CleanText(cs[i], values);
      NoQuoteIntact(texts[i], ':');
    }
    JoinSegments(texts, ':');
    ChildrenReadBack(cs, values, texts, 0, map[]);
  }
}
