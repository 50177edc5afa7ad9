/**
 * `parse` on every node of lib/tl1/ast.rb: reading the variables of one
 * record of an output message into a record hash.
 *
 * The Ruby methods fill a hash they are handed, one assignment at a time,
 * and raise at the first fragment that does not fit.  `MatchNode` and its
 * helpers say what the hash holds afterwards and which error, if any, was
 * raised; the `Parse...` methods are the loops of the Ruby code on a
 * `Record` object, proved to leave exactly that behind.
 */
module Matching {
  import opened Wrappers
  import opened Split
  import opened Ast

  /** The record hash as `parse` leaves it, and the error it raised, if any. */
  datatype Outcome = Outcome(record: map<string, string>, failure: Option<Error>)

  /** `parse` of one node on one fragment, starting from the record `rec`. */
  function MatchNode(n: Node, fragment: string, rec: map<string, string>): (r: Outcome)
    decreases n, 1
  {
    match n
    case Literal(t) =>
      if fragment == t then Outcome(rec, None) else Outcome(rec, Some(LiteralMismatch(t, fragment)))
    case Variable(x) => Outcome(rec[x := RemoveQuotes(fragment)], None)
    case ColonSeparatedVariables(cs) =>
      (match Segments(fragment, ':')
       case Err(e) => Outcome(rec, Some(e))
       case Ok(segments) => MatchChildren(cs, segments, 0, rec))
    case CommaSeparatedVariables(ns) =>
      (match Segments(fragment, ',')
       case Err(e) => Outcome(rec, Some(e))
       case Ok(segments) => MatchNames(ns, segments, 0, rec))
    case CommaSeparatedKeywordVariables(kvs) =>
      (match Segments(fragment, ',')
       case Err(e) => Outcome(rec, Some(e))
       case Ok(pairs) => MatchPairs(kvs, pairs, 0, rec))
  }

  /**
   * The `zip` of the segments with the children of a colon node, from
   * segment `k` on: a segment with no child raises, and children with no
   * segment are left alone.
   */
  function MatchChildren(cs: seq<Node>, segments: seq<string>, k: nat, rec: map<string, string>): (r: Outcome)
    requires k <= |segments|
    decreases ColonSeparatedVariables(cs), 0, |segments| - k
  {
    if k == |segments| then Outcome(rec, None)
    else if k >= |cs| then Outcome(rec, Some(ExtraSegment(segments[k])))
    else
      assert cs[k] in cs;
      var o := MatchNode(cs[k], segments[k], rec);
      if o.failure.Some? then o else MatchChildren(cs, segments, k + 1, o.record)
  }

  /** The `zip` of the segments with the variables of a comma node, from segment `k` on. */
  function MatchNames(ns: seq<string>, segments: seq<string>, k: nat, rec: map<string, string>): (r: Outcome)
    requires k <= |segments|
    decreases |segments| - k
  {
    if k == |segments| then Outcome(rec, None)
    else if k >= |ns| then Outcome(rec, Some(ExtraSegment(segments[k])))
    else MatchNames(ns, segments, k + 1, rec[ns[k] := RemoveQuotes(segments[k])])
  }

  /**
   * One `keyword=value` pair of a keyword group: an empty pair is skipped,
   * an unknown keyword raises before a missing value does, and the value
   * goes to the keyword's variable.
   */
  function MatchPair(kvs: seq<(string, string)>, pair: string, rec: map<string, string>): (r: Outcome)
  {
    if pair == [] then Outcome(rec, None)
    else
      var cut := CutAtEquals(pair);
      var key := if cut.Some? then cut.value.0 else pair;
      match Lookup(kvs, key)
      case None => Outcome(rec, Some(UnknownKeyword(key)))
      case Some(x) =>
        if cut.None? then Outcome(rec, Some(MissingKeywordValue(pair)))
        else Outcome(rec[x := RemoveQuotes(cut.value.1)], None)
  }

  /** The pairs of a keyword group one after the other, from pair `k` on. */
  function MatchPairs(kvs: seq<(string, string)>, pairs: seq<string>, k: nat, rec: map<string, string>): (r: Outcome)
    requires k <= |pairs|
    decreases |pairs| - k
  {
    if k == |pairs| then Outcome(rec, None)
    else
      var o := MatchPair(kvs, pairs[k], rec);
      if o.failure.Some? then o else MatchPairs(kvs, pairs, k + 1, o.record)
  }

  /** `OutputFormat#parse`: the record of a message, or the error `parse` raised. */
  function ParseRecord(root: Node, source: string): (r: Result<map<string, string>>)
    ensures r.Ok? <==> MatchNode(root, source, map[]).failure.None?
  {
    var o := MatchNode(root, source, map[]);
    if o.failure.Some? then Err(o.failure.value) else Ok(o.record)
  }

  // ---------------------------------------------------------------------
  // What parsing may change
  // ---------------------------------------------------------------------

  /** `after` differs from `before` at most on the names in `names`. */
  predicate OnlyChanges(before: map<string, string>, after: map<string, string>, names: set<string>)
  {
    && (forall x :: x in after && x !in names ==> x in before && after[x] == before[x])
    && (forall x :: x in before ==> x in after)
  }

  /** The variable names of the children of a colon node from index `from` on. */
  function NamesFrom(cs: seq<Node>, from: nat): (r: set<string>)
    requires from <= |cs|
    decreases ColonSeparatedVariables(cs), 0, |cs| - from
  {
    if from == |cs| then {}
    else
      assert cs[from] in cs;
      Names(cs[from]) + NamesFrom(cs, from + 1)
  }

  /** The variable names of a tree, keyword variables included. */
  function Names(n: Node): (r: set<string>)
    decreases n, 1
  {
    match n
    case Literal(_) => {}
    case Variable(x) => {x}
    case ColonSeparatedVariables(cs) => NamesFrom(cs, 0)
    case CommaSeparatedVariables(ns) => set i | 0 <= i < |ns| :: ns[i]
    case CommaSeparatedKeywordVariables(kvs) => set i | 0 <= i < |kvs| :: kvs[i].1
  }

  /**
   * `parse` only ever writes the variables of its tree: every other entry
   * of the record is kept, and nothing is removed, whether it succeeds or
   * raises.
   */
  lemma {:induction false} MatchNodeChanges(n: Node, fragment: string, rec: map<string, string>)
    ensures OnlyChanges(rec, MatchNode(n, fragment, rec).record, Names(n))
    decreases n, 1
  {
    match n
    case Literal(_) =>
    case Variable(x) =>
    case ColonSeparatedVariables(cs) =>
      if Segments(fragment, ':').Ok? {
        MatchChildrenChanges(cs, Segments(fragment, ':').value, 0, rec);
        NamesFromWithin(cs, 0);
      }
    case CommaSeparatedVariables(ns) =>
      if Segments(fragment, ',').Ok? {
        MatchNamesChanges(ns, Segments(fragment, ',').value, 0, rec);
      }
    case CommaSeparatedKeywordVariables(kvs) =>
      if Segments(fragment, ',').Ok? {
        MatchPairsChanges(kvs, Segments(fragment, ',').value, 0, rec);
      }
  }

  /** The names of the children from `from` on are names of the colon node. */
  lemma {:induction false} NamesFromWithin(cs: seq<Node>, from: nat)
    requires from <= |cs|
    ensures NamesFrom(cs, from) <= NamesFrom(cs, 0)
    decreases from
  {
    if from > 0 {
      NamesFromWithin(cs, from - 1);
    }
  }

  /** Composing two changes confined to `a` and to `b` is confined to `a + b`. */
  lemma ChangesCompose(m0: map<string, string>, m1: map<string, string>, m2: map<string, string>, a: set<string>, b: set<string>)
    requires OnlyChanges(m0, m1, a) && OnlyChanges(m1, m2, b)
    ensures OnlyChanges(m0, m2, a + b)
  {
  }

  /** The children of a colon node change only their own names. */
  lemma {:induction false} MatchChildrenChanges(cs: seq<Node>, segments: seq<string>, k: nat, rec: map<string, string>)
    requires k <= |segments|
    ensures k <= |cs| ==> OnlyChanges(rec, MatchChildren(cs, segments, k, rec).record, NamesFrom(cs, k))
    ensures k > |cs| ==> MatchChildren(cs, segments, k, rec).record == rec
    decreases ColonSeparatedVariables(cs), 0, |segments| - k
  {
    if k < |segments| && k < |cs| {
      assert cs[k] in cs;
      var o := MatchNode(cs[k], segments[k], rec);
      MatchNodeChanges(cs[k], segments[k], rec);
      if o.failure.None? {
        MatchChildrenChanges(cs, segments, k + 1, o.record);
        ChangesCompose(rec, o.record, MatchChildren(cs, segments, k + 1, o.record).record, Names(cs[k]), NamesFrom(cs, k + 1));
      }
    }
  }

  /** The variables of a comma node are the only entries it writes. */
  lemma {:induction false} MatchNamesChanges(ns: seq<string>, segments: seq<string>, k: nat, rec: map<string, string>)
    requires k <= |segments|
    ensures OnlyChanges(rec, MatchNames(ns, segments, k, rec).record, set i | 0 <= i < |ns| :: ns[i])
    decreases |segments| - k
  {
    if k < |segments| && k < |ns| {
      MatchNamesChanges(ns, segments, k + 1, rec[ns[k] := RemoveQuotes(segments[k])]);
    }
  }

  /** The variables of a keyword group are the only entries it writes. */
  lemma {:induction false} MatchPairsChanges(kvs: seq<(string, string)>, pairs: seq<string>, k: nat, rec: map<string, string>)
    requires k <= |pairs|
    ensures OnlyChanges(rec, MatchPairs(kvs, pairs, k, rec).record, set i | 0 <= i < |kvs| :: kvs[i].1)
    decreases |pairs| - k
  {
    if k < |pairs| {
      var o := MatchPair(kvs, pairs[k], rec);
      MatchPairChanges(kvs, pairs[k], rec);
      if o.failure.None? {
        MatchPairsChanges(kvs, pairs, k + 1, o.record);
      }
    }
  }

  /** One pair writes at most the variable of its keyword. */
  lemma MatchPairChanges(kvs: seq<(string, string)>, pair: string, rec: map<string, string>)
    ensures OnlyChanges(rec, MatchPair(kvs, pair, rec).record, set i | 0 <= i < |kvs| :: kvs[i].1)
  {
    if pair != [] {
      var cut := CutAtEquals(pair);
      LookupVariable(kvs, if cut.Some? then cut.value.0 else pair);
    }
  }

  /** The variable a keyword looks up is one of the group's variables. */
  lemma LookupVariable(kvs: seq<(string, string)>, key: string)
    ensures Lookup(kvs, key).Some? ==> Lookup(kvs, key).value in set i | 0 <= i < |kvs| :: kvs[i].1
  {
    if Lookup(kvs, key).Some? {
      var i :| 0 <= i < |kvs| && kvs[i] == (key, Lookup(kvs, key).value);
      assert kvs[i].1 in set i | 0 <= i < |kvs| :: kvs[i].1;
    }
  }

  // ---------------------------------------------------------------------
  // When parsing raises
  // ---------------------------------------------------------------------

  /**
   * A comma node raises exactly when the fragment has more segments than
   * it has variables, and then names the first segment left over.
   */
  lemma {:induction false} MatchNamesFails(ns: seq<string>, segments: seq<string>, k: nat, rec: map<string, string>)
    requires k <= |segments|
    ensures MatchNames(ns, segments, k, rec).failure.Some? <==> |segments| > |ns| && |segments| > k
    ensures |segments| > |ns| && |segments| > k ==>
              MatchNames(ns, segments, k, rec).failure == Some(ExtraSegment(segments[if k > |ns| then k else |ns|]))
    decreases |segments| - k
  {
    if k < |segments| && k < |ns| {
      MatchNamesFails(ns, segments, k + 1, rec[ns[k] := RemoveQuotes(segments[k])]);
    }
  }

  /**
   * With no more segments than variables a comma node matches, and leaves
   * every name not at the position of a segment as it was: the variables
   * past the last segment stay unassigned.
   */
  lemma {:induction false} MatchNamesKeeps(ns: seq<string>, segments: seq<string>, k: nat, rec: map<string, string>, x: string)
    requires k <= |segments| <= |ns|
    requires forall i :: k <= i < |segments| ==> ns[i] != x
    ensures MatchNames(ns, segments, k, rec).failure == None
    ensures var r := MatchNames(ns, segments, k, rec).record;
            (x in r <==> x in rec) && (x in rec ==> r[x] == rec[x])
    decreases |segments| - k
  {
    if k < |segments| {
      MatchNamesKeeps(ns, segments, k + 1, rec[ns[k] := RemoveQuotes(segments[k])], x);
    }
  }

  /**
   * A comma node with distinct names stores each segment, unquoted, under
   * the variable at its position; an empty segment stores "".
   */
  lemma {:induction false} MatchNamesStores(ns: seq<string>, segments: seq<string>, k: nat, rec: map<string, string>, i: nat)
    requires k <= i < |segments| <= |ns|
    requires forall a, b :: 0 <= a < b < |ns| ==> ns[a] != ns[b]
    ensures var r := MatchNames(ns, segments, k, rec).record;
            ns[i] in r && r[ns[i]] == RemoveQuotes(segments[i])
    decreases |segments| - k
  {
    var next := rec[ns[k] := RemoveQuotes(segments[k])];
    if i == k {
      MatchNamesKeeps(ns, segments, k + 1, next, ns[k]);
    } else {
      MatchNamesStores(ns, segments, k + 1, next, i);
    }
  }

  /** The keyword a non-empty pair names: the text before its first '=', or all of it. */
  function PairKey(pair: string): (r: string)
    ensures '=' !in r
    ensures '=' in pair ==> pair == r + "=" + CutAtEquals(pair).value.1
    ensures '=' !in pair ==> r == pair
  {
    var cut := CutAtEquals(pair);
    if cut.Some? then cut.value.0 else pair
  }

  /** An empty pair, as between two adjacent commas, is skipped. */
  lemma MatchPairEmpty(kvs: seq<(string, string)>, rec: map<string, string>)
    ensures MatchPair(kvs, [], rec) == Outcome(rec, None)
  {
  }

  /** A pair whose keyword the group does not define raises `UnknownKeyword`, with or without a value. */
  lemma MatchPairUnknown(kvs: seq<(string, string)>, pair: string, rec: map<string, string>)
    requires pair != [] && Lookup(kvs, PairKey(pair)).None?
    ensures MatchPair(kvs, pair, rec) == Outcome(rec, Some(UnknownKeyword(PairKey(pair))))
  {
  }

  /** A known keyword without '=' raises `MissingKeywordValue`; with one, its value is stored unquoted. */
  lemma MatchPairKnown(kvs: seq<(string, string)>, pair: string, rec: map<string, string>)
    requires pair != [] && Lookup(kvs, PairKey(pair)).Some?
    ensures '=' !in pair ==> MatchPair(kvs, pair, rec) == Outcome(rec, Some(MissingKeywordValue(pair)))
    ensures '=' in pair ==>
              MatchPair(kvs, pair, rec) == Outcome(rec[Lookup(kvs, PairKey(pair)).value := RemoveQuotes(CutAtEquals(pair).value.1)], None)
  {
  }

  /** A pair `parse` accepts: empty, or a known keyword with a value. */
  predicate PairAccepted(kvs: seq<(string, string)>, pair: string)
  {
    pair == [] || ('=' in pair && Lookup(kvs, PairKey(pair)).Some?)
  }

  /** One pair matches exactly when it is accepted, and a pair that raises leaves the record as it was. */
  lemma MatchPairAccepted(kvs: seq<(string, string)>, pair: string, rec: map<string, string>)
    ensures MatchPair(kvs, pair, rec).failure.None? <==> PairAccepted(kvs, pair)
    ensures MatchPair(kvs, pair, rec).failure.Some? ==> MatchPair(kvs, pair, rec).record == rec
  {
  }

  /** A keyword group raises exactly when one of its pairs from `k` on is not accepted. */
  lemma {:induction false} MatchPairsFails(kvs: seq<(string, string)>, pairs: seq<string>, k: nat, rec: map<string, string>)
    requires k <= |pairs|
    ensures MatchPairs(kvs, pairs, k, rec).failure.None? <==> forall i :: k <= i < |pairs| ==> PairAccepted(kvs, pairs[i])
    decreases |pairs| - k
  {
    if k < |pairs| {
      var o := MatchPair(kvs, pairs[k], rec);
      assert o.failure.None? <==> PairAccepted(kvs, pairs[k]);
      if o.failure.None? {
        MatchPairsFails(kvs, pairs, k + 1, o.record);
      }
    }
  }

  /**
   * A colon node raises when the fragment has more segments than it has
   * children: if no child raises first, the first segment left over does.
   */
  lemma {:induction false} MatchChildrenFails(cs: seq<Node>, segments: seq<string>, k: nat, rec: map<string, string>)
    requires k <= |segments|
    ensures |segments| > |cs| && |segments| > k ==> MatchChildren(cs, segments, k, rec).failure.Some?
    ensures |cs| <= k < |segments| ==> MatchChildren(cs, segments, k, rec) == Outcome(rec, Some(ExtraSegment(segments[k])))
    decreases |segments| - k
  {
    if k < |segments| && k < |cs| {
      assert cs[k] in cs;
      var o := MatchNode(cs[k], segments[k], rec);
      if o.failure.None? {
        MatchChildrenFails(cs, segments, k + 1, o.record);
      }
    }
  }

  /**
   * A keyword group leaves alone every variable whose keyword no pair of
   * the fragment names: absent keywords add nothing to the record.
   */
  lemma {:induction false} MatchPairsKeeps(kvs: seq<(string, string)>, pairs: seq<string>, k: nat, rec: map<string, string>, x: string)
    requires k <= |pairs|
    requires forall i :: k <= i < |pairs| && pairs[i] != [] ==> Lookup(kvs, PairKey(pairs[i])) != Some(x)
    ensures var r := MatchPairs(kvs, pairs, k, rec).record;
            (x in r <==> x in rec) && (x in rec ==> r[x] == rec[x])
    decreases |pairs| - k
  {
    if k < |pairs| {
      var o := MatchPair(kvs, pairs[k], rec);
      assert (x in o.record <==> x in rec) && (x in rec ==> o.record[x] == rec[x]);
      if o.failure.None? {
        MatchPairsKeeps(kvs, pairs, k + 1, o.record, x);
      }
    }
  }

  /** Children past the last segment take no part: matching sees only as many children as segments. */
  lemma {:induction false} TrailingChildrenIgnored(cs: seq<Node>, segments: seq<string>, k: nat, rec: map<string, string>)
    requires k <= |segments| <= |cs|
    ensures MatchChildren(cs, segments, k, rec) == MatchChildren(cs[..|segments|], segments, k, rec)
    decreases |segments| - k
  {
    if k < |segments| {
      var o := MatchNode(cs[k], segments[k], rec);
      assert cs[..|segments|][k] == cs[k];
      if o.failure.None? {
        TrailingChildrenIgnored(cs, segments, k + 1, o.record);
      }
    }
  }

  /** A literal matches exactly the fragment equal to its text, and is never written to the record. */
  lemma LiteralMatch(t: string, fragment: string, rec: map<string, string>)
    ensures MatchNode(Literal(t), fragment, rec).record == rec
    ensures MatchNode(Literal(t), fragment, rec).failure.None? <==> fragment == t
    ensures fragment != t ==> MatchNode(Literal(t), fragment, rec).failure == Some(LiteralMismatch(t, fragment))
  {
  }

  // ---------------------------------------------------------------------
  // The record hash and the `parse` methods
  // ---------------------------------------------------------------------

  /** The record hash `parse` fills in place. */
  class Record {
    var fields: map<string, string>

    /** An empty record, as `parse(record_source, record: {})` starts from. */
    constructor ()
      ensures fields == map[]
    {
      fields := map[];
    }
  }

  /** `Node#parse` on every node class: fills `rec` and reports the error it raised. */
  method ParseNode(n: Node, fragment: string, rec: Record) returns (failure: Option<Error>)
    modifies rec
    ensures MatchNode(n, fragment, old(rec.fields)) == Outcome(rec.fields, failure)
    decreases n, 1
  {
    match n
    case Literal(t) =>
      if fragment != t {
        return Some(LiteralMismatch(t, fragment));
      }
      return None;
    case Variable(x) =>
      rec.fields := rec.fields[x := RemoveQuotes(fragment)];
      return None;
    case ColonSeparatedVariables(cs) =>
      var segments := Split.Split(fragment, ':');
      if segments.Err? {
        return Some(segments.error);
      }
      failure := ParseChildren(cs, segments.value, rec);
    case CommaSeparatedVariables(ns) =>
      var segments := Split.Split(fragment, ',');
      if segments.Err? {
        return Some(segments.error);
      }
      failure := ParseNames(ns, segments.value, rec);
    case CommaSeparatedKeywordVariables(kvs) =>
      var pairs := Split.Split(fragment, ',');
      if pairs.Err? {
        return Some(pairs.error);
      }
      failure := ParsePairs(kvs, pairs.value, rec);
  }

  /** `ColonSeparatedVariables#parse`: each segment parsed by the child at its position. */
  method ParseChildren(cs: seq<Node>, segments: seq<string>, rec: Record) returns (failure: Option<Error>)
    modifies rec
    ensures MatchChildren(cs, segments, 0, old(rec.fields)) == Outcome(rec.fields, failure)
    decreases ColonSeparatedVariables(cs), 0
  {
    var k := 0;
    while k < |segments|
      invariant 0 <= k <= |segments|
      invariant MatchChildren(cs, segments, 0, old(rec.fields)) == MatchChildren(cs, segments, k, rec.fields)
      decreases |segments| - k
    {
      if k >= |cs| {
        return Some(ExtraSegment(segments[k]));
      }
      assert cs[k] in cs;
      failure := ParseNode(cs[k], segments[k], rec);
      if failure.Some? {
        return;
      }
      k := k + 1;
    }
    return None;
  }

  /** `CommaSeparatedVariables#parse`: each segment, unquoted, to the variable at its position. */
  method ParseNames(ns: seq<string>, segments: seq<string>, rec: Record) returns (failure: Option<Error>)
    modifies rec
    ensures MatchNames(ns, segments, 0, old(rec.fields)) == Outcome(rec.fields, failure)
  {
    var k := 0;
    while k < |segments|
      invariant 0 <= k <= |segments|
      invariant MatchNames(ns, segments, 0, old(rec.fields)) == MatchNames(ns, segments, k, rec.fields)
      decreases |segments| - k
    {
      if k >= |ns| {
        return Some(ExtraSegment(segments[k]));
      }
      rec.fields := rec.fields[ns[k] := RemoveQuotes(segments[k])];
      k := k + 1;
    }
    return None;
  }

  /** `CommaSeparatedKeywordVariables#parse`: each non-empty pair to the variable of its keyword. */
  method ParsePairs(kvs: seq<(string, string)>, pairs: seq<string>, rec: Record) returns (failure: Option<Error>)
    modifies rec
    ensures MatchPairs(kvs, pairs, 0, old(rec.fields)) == Outcome(rec.fields, failure)
  {
    var k := 0;
    while k < |pairs|
      invariant 0 <= k <= |pairs|
      invariant MatchPairs(kvs, pairs, 0, old(rec.fields)) == MatchPairs(kvs, pairs, k, rec.fields)
      decreases |pairs| - k
    {
      var pair := pairs[k];
      if pair != [] {
        var cut := CutAtEquals(pair);
        var key := if cut.Some? then cut.value.0 else pair;
        var variable := Lookup(kvs, key);
        if variable.None? {
          return Some(UnknownKeyword(key));
        }
        if cut.None? {
          return Some(MissingKeywordValue(pair));
        }
        rec.fields := rec.fields[variable.value := RemoveQuotes(cut.value.1)];
      }
      k := k + 1;
    }
    return None;
  }
}
