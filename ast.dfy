/**
 * The syntax tree of lib/tl1/ast.rb: the five node classes, how a tree is
 * built from a format string (`colon_separated_element`) or from the
 * structured form (`from_json`), the structured form itself (`as_json`), and
 * node equality (`Node#<=>` through `Comparable#==`).
 *
 * The structured form is the value `JSON.parse` gives back for the output of
 * `to_json`: objects have string keys and the variable names are strings.
 */
module Ast {
  import opened Wrappers
  import opened Split

  /** A parsed JSON value; numbers and booleans are not part of the model. */
  datatype Json =
    | JNull
    | JString(text: string)
    | JArray(items: seq<Json>)
    | JObject(members: seq<(string, Json)>)

  /**
   * A node of a message format.  A comma node holds the names of its
   * variables and a keyword node pairs each keyword with a variable name, in
   * the order of the Ruby hash.
   */
  datatype Node =
    | Literal(text: string)
    | Variable(name: string)
    | ColonSeparatedVariables(children: seq<Node>)
    | CommaSeparatedVariables(names: seq<string>)
    | CommaSeparatedKeywordVariables(keywords: seq<(string, string)>)

  /** `NODES_BY_NAME`: the tag of each node class in the structured form. */
  const NodeNames: seq<string> :=
    ["ColonSeparatedVariables", "CommaSeparatedKeywordVariables",
     "CommaSeparatedVariables", "Literal", "Variable"]

  /** `NODES_BY_CLASS`: the tag `as_json` writes for a node. */
  function TagOf(n: Node): (r: string)
    ensures r in NodeNames
  {
    match n
    case Literal(_) => NodeNames[3]
    case Variable(_) => NodeNames[4]
    case ColonSeparatedVariables(_) => NodeNames[0]
    case CommaSeparatedVariables(_) => NodeNames[2]
    case CommaSeparatedKeywordVariables(_) => NodeNames[1]
  }

  /** The tag of each node kind, written out. */
  lemma TagOfKind(n: Node)
    ensures n.ColonSeparatedVariables? <==> TagOf(n) == "ColonSeparatedVariables"
    ensures n.CommaSeparatedKeywordVariables? <==> TagOf(n) == "CommaSeparatedKeywordVariables"
    ensures n.CommaSeparatedVariables? <==> TagOf(n) == "CommaSeparatedVariables"
    ensures n.Literal? <==> TagOf(n) == "Literal"
    ensures n.Variable? <==> TagOf(n) == "Variable"
  {
  }

  // ---------------------------------------------------------------------
  // Hashes as association lists
  // ---------------------------------------------------------------------

  /** The keys of an association list, in order. */
  function KeysOf<V>(kvs: seq<(string, V)>): (r: seq<string>)
    ensures |r| == |kvs| && forall i {:trigger r[i]} :: 0 <= i < |kvs| ==> r[i] == kvs[i].0
  {
    if kvs == [] then [] else [kvs[0].0] + KeysOf(kvs[1..])
  }

  /** No key occurs twice, as in a Ruby hash. */
  predicate DistinctKeys<V>(kvs: seq<(string, V)>)
  {
    forall i, j :: 0 <= i < j < |kvs| ==> kvs[i].0 != kvs[j].0
  }

  /** `hash[k] = v`: replaces the value of an existing key in place, or appends. */
  function Put<V>(kvs: seq<(string, V)>, k: string, v: V): (r: seq<(string, V)>)
    ensures k in KeysOf(kvs) ==> |r| == |kvs|
    ensures k !in KeysOf(kvs) ==> r == kvs + [(k, v)]
    ensures DistinctKeys(kvs) ==> forall i {:trigger r[i]} :: 0 <= i < |kvs| ==> r[i] == (if kvs[i].0 == k then (k, v) else kvs[i])
  {
    if kvs == [] then [(k, v)]
    else if kvs[0].0 == k then [(k, v)] + kvs[1..]
    else [kvs[0]] + Put(kvs[1..], k, v)
  }

  /** `Array#to_h` (and a JSON object read into a hash): the first position and the last value of a key. */
  function ToHash<V>(pairs: seq<(string, V)>): seq<(string, V)>
  {
    ToHashFrom([], pairs)
  }

  /** Puts `pairs` one after the other into `acc`. */
  function ToHashFrom<V>(acc: seq<(string, V)>, pairs: seq<(string, V)>): seq<(string, V)>
    decreases |pairs|
  {
    if pairs == [] then acc else ToHashFrom(Put(acc, pairs[0].0, pairs[0].1), pairs[1..])
  }

  /** `Put` keeps the keys distinct. */
  lemma PutDistinct<V>(kvs: seq<(string, V)>, k: string, v: V)
    requires DistinctKeys(kvs)
    ensures DistinctKeys(Put(kvs, k, v))
  {
    var r := Put(kvs, k, v);
    if k !in KeysOf(kvs) {
      forall i | 0 <= i < |kvs| ensures kvs[i].0 != k {
        assert KeysOf(kvs)[i] == kvs[i].0;
      }
    }
  }

  /** The keys of a hash are distinct. */
  lemma {:induction false} ToHashDistinct<V>(acc: seq<(string, V)>, pairs: seq<(string, V)>)
    requires DistinctKeys(acc)
    ensures DistinctKeys(ToHashFrom(acc, pairs))
    decreases |pairs|
  {
    if pairs != [] {
      PutDistinct(acc, pairs[0].0, pairs[0].1);
      ToHashDistinct(Put(acc, pairs[0].0, pairs[0].1), pairs[1..]);
    }
  }

  /** The first key of `pairs` is not among the keys of `acc` when all of them are distinct. */
  lemma FreshKey<V>(acc: seq<(string, V)>, pairs: seq<(string, V)>)
    requires pairs != [] && DistinctKeys(acc + pairs)
    ensures pairs[0].0 !in KeysOf(acc)
  {
    var all := acc + pairs;
    assert all[|acc|] == pairs[0];
    forall i | 0 <= i < |acc| ensures KeysOf(acc)[i] != pairs[0].0 {
      assert all[i] == acc[i];
    }
  }

  /** Moving the first pair onto the end of `acc` changes neither the whole list nor its distinctness. */
  lemma ShiftPair<V>(acc: seq<(string, V)>, pairs: seq<(string, V)>)
    requires pairs != []
    ensures (acc + [pairs[0]]) + pairs[1..] == acc + pairs
  {
  }

  /** Building a hash from pairs whose keys are already distinct keeps them as they are. */
  lemma {:induction false} ToHashOfDistinct<V>(acc: seq<(string, V)>, pairs: seq<(string, V)>)
    requires DistinctKeys(acc + pairs)
    ensures ToHashFrom(acc, pairs) == acc + pairs
    decreases |pairs|
  {
    if pairs != [] {
      FreshKey(acc, pairs);
      ShiftPair(acc, pairs);
      ToHashOfDistinct(acc + [pairs[0]], pairs[1..]);
    }
  }

  /** `hash[key]` on a JSON object: the value of the last member named `key`, or `nil`. */
  function Get(members: seq<(string, Json)>, key: string): (r: Json)
    ensures r == JNull || exists i :: 0 <= i < |members| && members[i] == (key, r)
    ensures key !in KeysOf(members) ==> r == JNull
    ensures key in KeysOf(members) ==>
              exists i :: 0 <= i < |members| && members[i] == (key, r) && forall j :: i < j < |members| ==> members[j].0 != key
  {
    if members == [] then JNull
    else
      var last := members[|members| - 1];
      if last.0 == key then
        assert members[|members| - 1] == (key, last.1) && KeysOf(members)[|members| - 1] == key;
        last.1
      else
        var init := members[..|members| - 1];
        var r := Get(init, key);
        assert key !in KeysOf(members) ==> key !in KeysOf(init) by {
          if key in KeysOf(init) {
            var k :| 0 <= k < |init| && KeysOf(init)[k] == key;
            assert KeysOf(members)[k] == key;
          }
        }
        assert key in KeysOf(members) ==>
                 exists i :: 0 <= i < |members| && members[i] == (key, r) && forall j :: i < j < |members| ==> members[j].0 != key
        by {
          if key in KeysOf(members) {
            var k :| 0 <= k < |members| && KeysOf(members)[k] == key;
            assert KeysOf(init)[k] == key;
            var i :| 0 <= i < |init| && init[i] == (key, r) && forall j :: i < j < |init| ==> init[j].0 != key;
            assert members[i] == init[i];
            forall j | i < j < |members| ensures members[j].0 != key {
              if j < |init| {
                assert members[j] == init[j];
              }
            }
          }
        }
        r
  }

  /** The keyword `k` of an association list: the variable name of its first entry. */
  function Lookup(kvs: seq<(string, string)>, k: string): (r: Option<string>)
    ensures r.None? <==> k !in KeysOf(kvs)
    ensures r.Some? ==> exists i :: 0 <= i < |kvs| && kvs[i] == (k, r.value)
  {
    if kvs == [] then None
    else if kvs[0].0 == k then Some(kvs[0].1)
    else Lookup(kvs[1..], k)
  }

  // ---------------------------------------------------------------------
  // Building a tree from a format string
  // ---------------------------------------------------------------------

  /** The token is `<...>` with no newline inside: the regex `\A<(.*)>\z` matches. */
  predicate Bracketed(token: string)
  {
    |token| >= 2 && token[0] == '<' && token[|token| - 1] == '>' && '\n' !in token[1..|token| - 1]
  }

  /** `Variable.optional_variable`: strips the angle brackets only when they wrap the whole token. */
  function OptionalVariable(token: string): (r: string)
    ensures Bracketed(token) ==> token == "<" + r + ">"
    ensures !Bracketed(token) ==> r == token
  {
    if Bracketed(token) then token[1..|token| - 1] else token
  }

  /** A name `OptionalVariable` gives back unchanged: the name survives the structured form. */
  predicate StableName(name: string)
  {
    !Bracketed(name)
  }

  /** `pair.split('=', 2)`: the text before and after the first '='; `None` when there is none. */
  function CutAtEquals(pair: string): (r: Option<(string, string)>)
    ensures r.None? <==> '=' !in pair
    ensures r.Some? ==> pair == r.value.0 + "=" + r.value.1 && '=' !in r.value.0
  {
    match IndexOf(pair, '=')
    case None => None
    case Some(k) =>
      assert pair == pair[..k] + "=" + pair[k + 1..];
      Some((pair[..k], pair[k + 1..]))
  }

  /** Cutting `k=v` with no '=' in `k` gives `k` and `v` back. */
  lemma CutAtEqualsJoin(k: string, v: string)
    requires '=' !in k
    ensures CutAtEquals(k + "=" + v) == Some((k, v))
  {
    var pair := k + "=" + v;
    assert pair[..|k|] == k && pair[|k|] == '=';
    IndexOfFirst(pair, |k|, '=');
    assert pair[|k| + 1..] == v;
  }

  /** The keyword pairs of a keyword segment: a pair without '=' has no value, and Ruby crashes on it. */
  function KeywordPairs(pairs: seq<string>): (r: Result<seq<(string, string)>>)
    ensures r.Ok? ==> |r.value| == |pairs|
    ensures r.Ok? <==> forall i :: 0 <= i < |pairs| ==> '=' in pairs[i]
  {
    if pairs == [] then Ok([])
    else
      match CutAtEquals(pairs[0])
      case None => Err(MissingKeywordValue(pairs[0]))
      case Some(kv) =>
        var rest :- KeywordPairs(pairs[1..]);
        Ok([(kv.0, OptionalVariable(kv.1))] + rest)
  }

  /** `CommaSeparatedKeywordVariables.parse` on a string. */
  function KeywordsFromString(s: string): Result<Node>
  {
    var segments :- Segments(s, ',');
    var pairs :- KeywordPairs(segments);
    Ok(CommaSeparatedKeywordVariables(ToHash(pairs)))
  }

  /** `CommaSeparatedVariables.parse` on a string. */
  function CommaFromString(s: string): Result<Node>
  {
    var segments :- Segments(s, ',');
    Ok(CommaSeparatedVariables(OptionalVariables(segments)))
  }

  /** `OptionalVariable` on each token. */
  function OptionalVariables(tokens: seq<string>): (r: seq<string>)
    ensures |r| == |tokens|
    ensures forall i {:trigger r[i]} :: 0 <= i < |tokens| ==> r[i] == OptionalVariable(tokens[i])
  {
    if tokens == [] then [] else [OptionalVariable(tokens[0])] + OptionalVariables(tokens[1..])
  }

  /**
   * `colon_separated_element` on a string: a keyword node when it holds '=',
   * a comma node when it holds ',', a variable when it is `<...>`, and a
   * literal otherwise.
   */
  function Classify(s: string): (r: Result<Node>)
    ensures r.Ok? && r.value.CommaSeparatedKeywordVariables? <==> '=' in s && r.Ok?
    ensures r.Ok? && r.value.CommaSeparatedVariables? <==> '=' !in s && ',' in s && r.Ok?
    ensures r.Ok? && r.value.Variable? <==> '=' !in s && ',' !in s && |s| >= 1 && s[0] == '<' && s[|s| - 1] == '>'
    ensures r.Ok? && r.value.Variable? ==> r.value.name == OptionalVariable(s)
    ensures r == Ok(Literal(s)) <==> '=' !in s && ',' !in s && !(|s| >= 1 && s[0] == '<' && s[|s| - 1] == '>')
    ensures r.Err? ==> '=' in s || ',' in s
    ensures r.Ok? ==> !r.value.ColonSeparatedVariables?
  {
    if '=' in s then KeywordsFromString(s)
    else if ',' in s then CommaFromString(s)
    else if |s| >= 1 && s[0] == '<' && s[|s| - 1] == '>' then Ok(Variable(OptionalVariable(s)))
    else Ok(Literal(s))
  }

  /** `colon_separated_element` on each segment of a colon-separated string, stopping at the first error. */
  function ClassifyAll(segments: seq<string>): (r: Result<seq<Node>>)
    ensures r.Ok? ==> |r.value| == |segments|
    ensures r.Ok? ==> forall i {:trigger r.value[i]} :: 0 <= i < |segments| ==> Classify(segments[i]) == Ok(r.value[i])
    ensures r.Err? ==> exists i :: 0 <= i < |segments| && Classify(segments[i]) == Err(r.error)
  {
    if segments == [] then Ok([])
    else
      var first :- Classify(segments[0]);
      var rest :- ClassifyAll(segments[1..]);
      Ok([first] + rest)
  }

  // ---------------------------------------------------------------------
  // Building a tree from the structured form
  // ---------------------------------------------------------------------

  /** A member of a JSON object is smaller than the object. */
  lemma GetSmaller(members: seq<(string, Json)>, key: string)
    requires Get(members, key) != JNull
    ensures Get(members, key) < JObject(members)
  {
    var i :| 0 <= i < |members| && members[i] == (key, Get(members, key));
    assert members[i] in members;
  }

  /** `w` occurs in `t` at index `i`. */
  predicate InfixAt(t: string, w: string, i: nat)
  {
    i + |w| <= |t| && t[i..i + |w|] == w
  }

  /** `w` occurs somewhere in `t`: Ruby's `t[w]` gives `w` back rather than `nil`. */
  predicate HasInfix(t: string, w: string)
  {
    exists i: nat | i <= |t| :: InfixAt(t, w, i)
  }

  /**
   * `Variable.parse(e['fields'])` on an element of the structured form.  On
   * an object `e['fields']` is the member; on a string it is the substring
   * lookup `String#[]`, which gives "fields" when the string contains it and
   * `nil` otherwise; `optional_variable` crashes on `nil`, and arrays refuse
   * a string index.
   */
  function VariableOfElement(e: Json): (r: Result<string>)
    ensures e.JString? ==> (r.Ok? <==> HasInfix(e.text, "fields"))
    ensures e.JString? && r.Ok? ==> r.value == "fields"
    ensures e.JNull? || e.JArray? ==> r.Err?
  {
    match e
    case JObject(members) =>
      (match Get(members, "fields")
       case JString(t) => Ok(OptionalVariable(t))
       case _ => Err(MalformedStructure))
    case JString(t) =>
      if HasInfix(t, "fields") then Ok(OptionalVariable("fields")) else Err(MalformedStructure)
    case _ => Err(MalformedStructure)
  }

  /** The variable names of the elements of a structured comma node. */
  function VariablesOfElements(items: seq<Json>): (r: Result<seq<string>>)
    ensures r.Ok? ==> |r.value| == |items|
  {
    if items == [] then Ok([])
    else
      var name :- VariableOfElement(items[0]);
      var rest :- VariablesOfElements(items[1..]);
      Ok([name] + rest)
  }

  /** The keyword pairs of a structured keyword node. */
  function KeywordsOfMembers(members: seq<(string, Json)>): (r: Result<seq<(string, string)>>)
    ensures r.Ok? ==> KeysOf(r.value) == KeysOf(members)
  {
    if members == [] then Ok([])
    else
      var name :- VariableOfElement(members[0].1);
      var rest :- KeywordsOfMembers(members[1..]);
      Ok([(members[0].0, name)] + rest)
  }

  /**
   * `k.to_s` on the key of a pair given as an array: a string is itself and
   * `nil` is empty; the `inspect` text of an array or object key is not
   * modelled and is refused.
   */
  function KeyText(k: Json): (r: Result<string>)
    ensures k.JString? <==> r.Ok? && !k.JNull?
  {
    match k
    case JString(t) => Ok(t)
    case JNull => Ok("")
    case _ => Err(MalformedStructure)
  }

  /**
   * The block `|k, v|` on one item of an array: an array item spreads over
   * `k` and `v` and extra entries are dropped; any other item is `k` alone,
   * and the missing `v` is `nil`, on which `v['fields']` crashes.
   */
  function PairOfItem(item: Json): (r: Result<(string, string)>)
    ensures r.Ok? ==> item.JArray? && |item.items| >= 2
  {
    match item
    case JArray(xs) =>
      if |xs| < 2 then Err(MalformedStructure)
      else
        var key :- KeyText(xs[0]);
        var name :- VariableOfElement(xs[1]);
        Ok((key, name))
    case _ => Err(MalformedStructure)
  }

  /** The keyword pairs of a structured keyword node given as an array of pairs. */
  function KeywordsOfItems(items: seq<Json>): (r: Result<seq<(string, string)>>)
    ensures r.Ok? ==> |r.value| == |items|
  {
    if items == [] then Ok([])
    else
      var pair :- PairOfItem(items[0]);
      var rest :- KeywordsOfItems(items[1..]);
      Ok([pair] + rest)
  }

  /** The members of an object, each written as the two-item array `[key, value]` (`Hash#to_a`). */
  function PairItems(members: seq<(string, Json)>): (r: seq<Json>)
    ensures |r| == |members|
  {
    if members == [] then [] else [JArray([JString(members[0].0), members[0].1])] + PairItems(members[1..])
  }

  /** An array of `[key, value]` pairs reads as the keyword pairs of the object with those members. */
  lemma {:induction false} ItemsAsMembers(members: seq<(string, Json)>)
    ensures KeywordsOfItems(PairItems(members)) == KeywordsOfMembers(members)
  {
    if members != [] {
      var items := PairItems(members);
      assert items[0] == JArray([JString(members[0].0), members[0].1]);
      assert items[1..] == PairItems(members[1..]);
      ItemsAsMembers(members[1..]);
    }
  }

  /** `CommaSeparatedVariables.parse` on the structured form. */
  function CommaFromFields(fields: Json): Result<Node>
  {
    match fields
    case JString(s) => CommaFromString(s)
    case JArray(items) =>
      var names :- VariablesOfElements(items);
      Ok(CommaSeparatedVariables(names))
    case JObject(members) =>
      if members == [] then Ok(CommaSeparatedVariables([])) else Err(MalformedStructure)
    case JNull => Err(MalformedStructure)
  }

  /** `CommaSeparatedKeywordVariables.parse` on the structured form. */
  function KeywordsFromFields(fields: Json): Result<Node>
  {
    match fields
    case JString(s) => KeywordsFromString(s)
    case JObject(members) =>
      var pairs :- KeywordsOfMembers(ToHash(members));
      Ok(CommaSeparatedKeywordVariables(ToHash(pairs)))
    case JArray(items) =>
      var pairs :- KeywordsOfItems(items);
      Ok(CommaSeparatedKeywordVariables(ToHash(pairs)))
    case JNull => Err(MalformedStructure)
  }

  /**
   * `ColonSeparatedVariables.parse`: a string is split on ':' and each
   * segment classified; otherwise the node takes the 'fields' of the object
   * it is given.
   */
  function ColonFromFields(source: Json): (r: Result<Node>)
    ensures r.Ok? ==> r.value.ColonSeparatedVariables?
    decreases source, 3
  {
    match source
    case JString(s) =>
      var segments :- Segments(s, ':');
      var children :- ClassifyAll(segments);
      Ok(ColonSeparatedVariables(children))
    case JObject(members) =>
      (match Get(members, "fields")
       case JArray(items) =>
         GetSmaller(members, "fields");
         var children :- Elements(items, 0);
         Ok(ColonSeparatedVariables(children))
       case JObject(inner) =>
         if inner == [] then Ok(ColonSeparatedVariables([])) else Err(UnparseableElement)
       case _ => Err(MalformedStructure))
    case _ => Err(MalformedStructure)
  }

  /** `elements.map { |e| colon_separated_element(e) }` from index `from` on, stopping at the first error. */
  function Elements(items: seq<Json>, from: nat): (r: Result<seq<Node>>)
    requires from <= |items|
    ensures r.Ok? ==> |r.value| == |items| - from
    decreases JArray(items), 4, |items| - from
  {
    if from == |items| then Ok([])
    else
      assert items[from] in items;
      var first :- ColonSeparatedElement(items[from]);
      var rest :- Elements(items, from + 1);
      Ok([first] + rest)
  }

  /** The first of the elements from `from` on, followed by the rest. */
  lemma ElementsCons(items: seq<Json>, from: nat)
    requires from < |items| && ColonSeparatedElement(items[from]).Ok? && Elements(items, from + 1).Ok?
    ensures Elements(items, from) == Ok([ColonSeparatedElement(items[from]).value] + Elements(items, from + 1).value)
  {
  }

  /** `colon_separated_element`: an object is a tagged node, a string is classified. */
  function ColonSeparatedElement(e: Json): Result<Node>
    decreases e, 2
  {
    match e
    case JObject(members) => FromJson(members)
    case JString(s) => Classify(s)
    case _ => Err(UnparseableElement)
  }

  /** `from_json`: the tag picks the node class, which parses the 'fields' member. */
  function FromJson(members: seq<(string, Json)>): Result<Node>
    decreases JObject(members), 1
  {
    var fields := Get(members, "fields");
    match Get(members, "node")
    case JString(tag) =>
      if tag !in NodeNames then Err(UnknownNodeType)
      else if fields == JNull then Err(MalformedStructure)
      else if tag == "ColonSeparatedVariables" then
        GetSmaller(members, "fields");
        ColonFromFields(fields)
      else if tag == "CommaSeparatedKeywordVariables" then KeywordsFromFields(fields)
      else if tag == "CommaSeparatedVariables" then CommaFromFields(fields)
      else if tag == "Literal" then
        (match fields
         case JString(t) => Ok(Literal(t))
         case _ => Err(MalformedStructure))
      else
        (match fields
         case JString(t) => Ok(Variable(OptionalVariable(t)))
         case _ => Err(MalformedStructure))
    case _ => Err(UnknownNodeType)
  }

  /** A comma node from text has one variable per comma segment, named by `OptionalVariable`; only `split` can fail. */
  lemma CommaFromStringShape(s: string)
    ensures CommaFromString(s).Ok? <==> Segments(s, ',').Ok?
    ensures CommaFromString(s).Ok? ==>
              var ns := CommaFromString(s).value.names;
              CommaFromString(s).value.CommaSeparatedVariables? && |ns| == |Segments(s, ',').value|
              && forall i :: 0 <= i < |ns| ==> ns[i] == OptionalVariable(Segments(s, ',').value[i])
  {
  }

  /**
   * A keyword node from text fails exactly when `split` does or some pair
   * has no '=', and its keywords are distinct (a repeated keyword keeps its
   * first place and its last variable).
   */
  lemma KeywordsFromStringShape(s: string)
    ensures KeywordsFromString(s).Ok? <==>
              Segments(s, ',').Ok? && forall i :: 0 <= i < |Segments(s, ',').value| ==> '=' in Segments(s, ',').value[i]
    ensures KeywordsFromString(s).Ok? ==>
              KeywordsFromString(s).value.CommaSeparatedKeywordVariables? && DistinctKeys(KeywordsFromString(s).value.keywords)
  {
    if KeywordsFromString(s).Ok? {
      ToHashDistinct([], KeywordPairs(Segments(s, ',').value).value);
    }
  }

  /**
   * A structured comma node: a string is parsed as text, an array gives one
   * variable per element, only the empty object is accepted, and nil is refused.
   */
  lemma CommaFromFieldsShape(fields: Json)
    ensures CommaFromFields(fields).Ok? ==> CommaFromFields(fields).value.CommaSeparatedVariables?
    ensures fields.JArray? && CommaFromFields(fields).Ok? ==> |CommaFromFields(fields).value.names| == |fields.items|
    ensures fields.JObject? ==> (CommaFromFields(fields).Ok? <==> fields.members == [])
    ensures fields.JNull? ==> CommaFromFields(fields).Err?
  {
  }

  /** A structured keyword node has distinct keywords, whatever form its fields take, and nil is refused. */
  lemma KeywordsFromFieldsShape(fields: Json)
    ensures KeywordsFromFields(fields).Ok? ==>
              KeywordsFromFields(fields).value.CommaSeparatedKeywordVariables? && DistinctKeys(KeywordsFromFields(fields).value.keywords)
    ensures fields.JNull? ==> KeywordsFromFields(fields).Err?
  {
    match fields
    case JString(t) => KeywordsFromStringShape(t);
    case JObject(members) =>
      var pairs := KeywordsOfMembers(ToHash(members));
      assert KeywordsFromFields(fields) == (if pairs.Ok? then Ok(CommaSeparatedKeywordVariables(ToHash(pairs.value))) else Err(pairs.error));
      if pairs.Ok? {
        ToHashDistinct([], pairs.value);
      }
    case JArray(items) =>
      var pairs := KeywordsOfItems(items);
      assert KeywordsFromFields(fields) == (if pairs.Ok? then Ok(CommaSeparatedKeywordVariables(ToHash(pairs.value))) else Err(pairs.error));
      if pairs.Ok? {
        ToHashDistinct([], pairs.value);
      }
    case JNull =>
  }

  /**
   * `from_json` builds a node of the class its tag names; a tag that is not
   * a string of the tag table raises "Unknown node type", and a known tag
   * without fields is malformed.
   */
  lemma FromJsonTag(members: seq<(string, Json)>)
    ensures FromJson(members).Ok? ==> Get(members, "node") == JString(TagOf(FromJson(members).value))
    ensures !Get(members, "node").JString? || Get(members, "node").text !in NodeNames ==> FromJson(members) == Err(UnknownNodeType)
    ensures Get(members, "node").JString? && Get(members, "node").text in NodeNames && Get(members, "fields") == JNull ==>
              FromJson(members) == Err(MalformedStructure)
  {
    var fields := Get(members, "fields");
    match Get(members, "node")
    case JString(tag) =>
      if tag in NodeNames && fields != JNull {
        var r := FromJson(members);
        if tag == "ColonSeparatedVariables" {
          assert r.Ok? ==> TagOf(r.value) == tag by {
            GetSmaller(members, "fields");
            assert r == ColonFromFields(fields);
            if r.Ok? { TagOfKind(r.value); }
          }
        } else if tag == "CommaSeparatedKeywordVariables" {
          assert r.Ok? ==> TagOf(r.value) == tag by {
            assert r == KeywordsFromFields(fields);
            KeywordsFromFieldsShape(fields);
            if r.Ok? { TagOfKind(r.value); }
          }
        } else if tag == "CommaSeparatedVariables" {
          assert r.Ok? ==> TagOf(r.value) == tag by {
            assert r == CommaFromFields(fields);
            CommaFromFieldsShape(fields);
            if r.Ok? { TagOfKind(r.value); }
          }
        } else if tag == "Literal" {
          assert r.Ok? ==> TagOf(r.value) == tag by {
            if r.Ok? { TagOfKind(r.value); }
          }
        } else {
          assert r.Ok? ==> TagOf(r.value) == tag by {
            assert tag == "Variable";
            if r.Ok? { TagOfKind(r.value); }
          }
        }
      }
    case _ =>
  }

  /**
   * `colon_separated_element`: nil and arrays are refused, a string never
   * gives a colon node, and an object gives a node of the class its tag names.
   */
  lemma ColonElementShape(e: Json)
    ensures e.JNull? || e.JArray? ==> ColonSeparatedElement(e) == Err(UnparseableElement)
    ensures e.JString? && ColonSeparatedElement(e).Ok? ==> !ColonSeparatedElement(e).value.ColonSeparatedVariables?
    ensures e.JObject? && ColonSeparatedElement(e).Ok? ==> Get(e.members, "node") == JString(TagOf(ColonSeparatedElement(e).value))
  {
    match e
    case JObject(members) => FromJsonTag(members);
    case JString(t) =>
      if Classify(t).Ok? {
        ParsedChildShape(t);
      }
    case _ =>
  }

  /** `parse_message_format`: the root of every format is a colon node. */
  function ParseMessageFormat(source: Json): (r: Result<Node>)
    ensures r.Ok? ==> r.value.ColonSeparatedVariables?
  {
    ColonFromFields(source)
  }

  /** Parsing a format string gives a colon root with one classified child per ':' segment. */
  lemma FormatStringRoot(s: string)
    requires ParseMessageFormat(JString(s)).Ok?
    ensures Segments(s, ':').Ok?
    ensures var root := ParseMessageFormat(JString(s)).value;
            && root.ColonSeparatedVariables?
            && |root.children| == |Segments(s, ':').value|
            && forall i :: 0 <= i < |root.children| ==> Classify(Segments(s, ':').value[i]) == Ok(root.children[i])
  {
  }

  // ---------------------------------------------------------------------
  // The structured form
  // ---------------------------------------------------------------------

  /** `{ node: tag, fields: fields }` after a trip through JSON text. */
  function Tagged(tag: string, fields: Json): Json
  {
    JObject([("node", JString(tag)), ("fields", fields)])
  }

  /** The structured form of a variable. */
  function VariableJson(name: string): Json
  {
    Tagged("Variable", JString(name))
  }

  /** `as_json` of every node class. */
  function AsJson(n: Node): Json
    decreases n, 1
  {
    match n
    case Literal(t) => Tagged(TagOf(n), JString(t))
    case Variable(x) => VariableJson(x)
    case ColonSeparatedVariables(cs) => Tagged(TagOf(n), JArray(ChildrenJson(cs, 0)))
    case CommaSeparatedVariables(ns) => Tagged(TagOf(n), JArray(NamesJson(ns)))
    case CommaSeparatedKeywordVariables(kvs) => Tagged(TagOf(n), JObject(KeywordsJson(kvs)))
  }

  /** `as_json` of the children of a colon node from index `from` on. */
  function ChildrenJson(cs: seq<Node>, from: nat): (r: seq<Json>)
    requires from <= |cs|
    ensures |r| == |cs| - from
    decreases ColonSeparatedVariables(cs), 0, |cs| - from
  {
    if from == |cs| then []
    else
      assert cs[from] in cs;
      [AsJson(cs[from])] + ChildrenJson(cs, from + 1)
  }

  /** The child at index `i` of a colon node is written as its own structured form. */
  lemma {:induction false} ChildrenJsonAt(cs: seq<Node>, from: nat, i: nat)
    requires from <= i < |cs|
    ensures ChildrenJson(cs, from)[i - from] == AsJson(cs[i])
    decreases i - from
  {
    if from < i {
      var rest := ChildrenJson(cs, from + 1);
      assert ChildrenJson(cs, from)[i - from] == rest[i - from - 1];
      ChildrenJsonAt(cs, from + 1, i);
    }
  }

  /** The structured form of the variables of a comma node. */
  function NamesJson(ns: seq<string>): (r: seq<Json>)
    ensures |r| == |ns|
  {
    if ns == [] then [] else [VariableJson(ns[0])] + NamesJson(ns[1..])
  }

  /** The structured form of the pairs of a keyword node: each keyword maps to its variable. */
  function KeywordsJson(kvs: seq<(string, string)>): (r: seq<(string, Json)>)
    ensures |r| == |kvs|
    ensures forall i {:trigger r[i]} :: 0 <= i < |kvs| ==> r[i] == (kvs[i].0, VariableJson(kvs[i].1))
  {
    if kvs == [] then [] else [(kvs[0].0, VariableJson(kvs[0].1))] + KeywordsJson(kvs[1..])
  }

  /**
   * A child node that comes back unchanged from its structured form: not a
   * colon node (whose 'fields' array `ColonSeparatedVariables.parse` cannot
   * fetch from), distinct keywords, and names `OptionalVariable` leaves alone.
   */
  predicate Portable(n: Node)
  {
    match n
    case Literal(_) => true
    case Variable(x) => StableName(x)
    case ColonSeparatedVariables(_) => false
    case CommaSeparatedVariables(ns) => forall i :: 0 <= i < |ns| ==> StableName(ns[i])
    case CommaSeparatedKeywordVariables(kvs) =>
      DistinctKeys(kvs) && forall i :: 0 <= i < |kvs| ==> StableName(kvs[i].1)
  }

  /** The name a structured variable element gives. */
  lemma VariableOfVariableJson(x: string)
    ensures VariableOfElement(VariableJson(x)) == Ok(OptionalVariable(x))
  {
    TaggedMembers("Variable", JString(x));
  }

  /** The variables of a structured comma node read back as the names written. */
  lemma {:induction false} VariablesRoundTrip(ns: seq<string>)
    requires forall i :: 0 <= i < |ns| ==> StableName(ns[i])
    ensures VariablesOfElements(NamesJson(ns)) == Ok(ns)
  {
    if ns != [] {
      var items := NamesJson(ns);
      assert items[0] == VariableJson(ns[0]) && items[1..] == NamesJson(ns[1..]);
      VariableOfVariableJson(ns[0]);
      VariablesRoundTrip(ns[1..]);
      assert [ns[0]] + ns[1..] == ns;
    }
  }

  /** The members of a structured keyword node read back as the pairs written. */
  lemma {:induction false} KeywordsRoundTrip(kvs: seq<(string, string)>)
    requires forall i :: 0 <= i < |kvs| ==> StableName(kvs[i].1)
    ensures KeywordsOfMembers(KeywordsJson(kvs)) == Ok(kvs)
  {
    if kvs != [] {
      var ms := KeywordsJson(kvs);
      assert ms[1..] == KeywordsJson(kvs[1..]);
      VariableOfVariableJson(kvs[0].1);
      KeywordsRoundTrip(kvs[1..]);
      assert [kvs[0]] + kvs[1..] == kvs;
    }
  }

  /** The two members of a tagged object. */
  lemma TaggedMembers(tag: string, fields: Json)
    ensures Get(Tagged(tag, fields).members, "node") == JString(tag)
    ensures Get(Tagged(tag, fields).members, "fields") == fields
  {
    var ms := Tagged(tag, fields).members;
    assert ms[..1] == [("node", JString(tag))];
  }

  /** `as_json` of any node is an object that names the node's class under `node` and has non-nil `fields`. */
  lemma AsJsonTag(n: Node)
    ensures AsJson(n).JObject?
    ensures Get(AsJson(n).members, "node") == JString(TagOf(n))
    ensures Get(AsJson(n).members, "fields") != JNull
  {
    match n
    case Literal(t) => TaggedMembers(TagOf(n), JString(t));
    case Variable(x) => TaggedMembers(TagOf(n), JString(x));
    case ColonSeparatedVariables(cs) => TaggedMembers(TagOf(n), JArray(ChildrenJson(cs, 0)));
    case CommaSeparatedVariables(ns) => TaggedMembers(TagOf(n), JArray(NamesJson(ns)));
    case CommaSeparatedKeywordVariables(kvs) => TaggedMembers(TagOf(n), JObject(KeywordsJson(kvs)));
  }

  /** An element whose tag names no node class is refused, whatever its fields. */
  lemma UnknownTag(tag: string, fields: Json)
    requires tag !in NodeNames
    ensures ColonSeparatedElement(Tagged(tag, fields)) == Err(UnknownNodeType)
  {
    TaggedMembers(tag, fields);
  }

  /** A structured variable reads back with `OptionalVariable` applied to its name. */
  lemma VariableElement(x: string)
    ensures ColonSeparatedElement(VariableJson(x)) == Ok(Variable(OptionalVariable(x)))
  {
    TaggedMembers("Variable", JString(x));
  }

  /** `from_json` dispatches on the tag: the keyword class. */
  lemma FromJsonKeywords(fields: Json)
    requires fields != JNull
    ensures FromJson(Tagged("CommaSeparatedKeywordVariables", fields).members) == KeywordsFromFields(fields)
  {
    TaggedMembers("CommaSeparatedKeywordVariables", fields);
  }

  /** `from_json` dispatches on the tag: the comma class. */
  lemma FromJsonComma(fields: Json)
    requires fields != JNull
    ensures FromJson(Tagged("CommaSeparatedVariables", fields).members) == CommaFromFields(fields)
  {
    TaggedMembers("CommaSeparatedVariables", fields);
  }

  /** A structured comma node reads back as the same node. */
  lemma CommaRoundTrip(ns: seq<string>)
    requires forall i :: 0 <= i < |ns| ==> StableName(ns[i])
    ensures ColonSeparatedElement(AsJson(CommaSeparatedVariables(ns))) == Ok(CommaSeparatedVariables(ns))
  {
    var items := NamesJson(ns);
    assert AsJson(CommaSeparatedVariables(ns)) == Tagged("CommaSeparatedVariables", JArray(items));
    FromJsonComma(JArray(items));
    VariablesRoundTrip(ns);
  }

  /** The members `as_json` writes for a keyword node have the node's keywords, so they are distinct too. */
  lemma KeywordsJsonDistinct(kvs: seq<(string, string)>)
    requires DistinctKeys(kvs)
    ensures DistinctKeys(KeywordsJson(kvs))
  {
    var ms := KeywordsJson(kvs);
    forall i, j | 0 <= i < j < |ms| ensures ms[i].0 != ms[j].0 {
      assert ms[i].0 == kvs[i].0 && ms[j].0 == kvs[j].0;
    }
  }

  /** A list with distinct keys is a hash already. */
  lemma HashOfDistinct<V>(kvs: seq<(string, V)>)
    requires DistinctKeys(kvs)
    ensures ToHash(kvs) == kvs
  {
    assert [] + kvs == kvs;
    ToHashOfDistinct([], kvs);
  }

  /** A structured keyword node with distinct keywords reads back as the same node. */
  lemma KeywordRoundTrip(kvs: seq<(string, string)>)
    requires DistinctKeys(kvs) && forall i :: 0 <= i < |kvs| ==> StableName(kvs[i].1)
    ensures ColonSeparatedElement(AsJson(CommaSeparatedKeywordVariables(kvs))) == Ok(CommaSeparatedKeywordVariables(kvs))
  {
    var ms := KeywordsJson(kvs);
    assert AsJson(CommaSeparatedKeywordVariables(kvs)) == Tagged("CommaSeparatedKeywordVariables", JObject(ms));
    FromJsonKeywords(JObject(ms));
    KeywordsJsonDistinct(kvs);
    HashOfDistinct(ms);
    KeywordsRoundTrip(kvs);
    HashOfDistinct(kvs);
  }

  /**
   * A keyword node given as an array of `[key, value]` pairs is the node
   * given as the object with those members, when the keys are distinct.
   */
  lemma PairsFormAgrees(members: seq<(string, Json)>)
    requires DistinctKeys(members)
    ensures KeywordsFromFields(JArray(PairItems(members))) == KeywordsFromFields(JObject(members))
  {
    ItemsAsMembers(members);
    HashOfDistinct(members);
  }

  /** A portable child survives `as_json` followed by `colon_separated_element`. */
  lemma ElementRoundTrip(n: Node)
    requires Portable(n)
    ensures ColonSeparatedElement(AsJson(n)) == Ok(n)
  {
    match n
    case Literal(t) =>
      TaggedMembers("Literal", JString(t));
    case Variable(x) =>
      VariableElement(x);
    case CommaSeparatedVariables(ns) =>
      CommaRoundTrip(ns);
    case CommaSeparatedKeywordVariables(kvs) =>
      KeywordRoundTrip(kvs);
  }

  /** Each element from `from` on reads back as the node at the same index. */
  predicate ReadsBack(items: seq<Json>, cs: seq<Node>, from: nat)
    requires |items| == |cs| && from <= |cs|
    decreases |cs| - from
  {
    from == |cs| || (ColonSeparatedElement(items[from]) == Ok(cs[from]) && ReadsBack(items, cs, from + 1))
  }

  /** Elements that each read back as a node read back as the sequence of those nodes. */
  lemma {:induction false} ElementsOf(items: seq<Json>, cs: seq<Node>, from: nat)
    requires |items| == |cs| && from <= |cs|
    requires ReadsBack(items, cs, from)
    ensures Elements(items, from) == Ok(cs[from..])
    decreases |cs| - from
  {
    if from < |cs| {
      assert Elements(items, from) == Ok([cs[from]] + cs[from + 1..]) by {
        ElementsOf(items, cs, from + 1);
        ElementsCons(items, from);
      }
      assert [cs[from]] + cs[from + 1..] == cs[from..];
    } else {
      assert cs[from..] == [];
    }
  }

  /** The structured children of portable nodes read back one by one. */
  lemma {:induction false} PortableReadsBack(cs: seq<Node>, from: nat)
    requires from <= |cs| && forall i :: 0 <= i < |cs| ==> Portable(cs[i])
    ensures ReadsBack(ChildrenJson(cs, 0), cs, from)
    decreases |cs| - from
  {
    if from < |cs| {
      ChildrenJsonAt(cs, 0, from);
      ElementRoundTrip(cs[from]);
      PortableReadsBack(cs, from + 1);
    }
  }

  /** The children of a structured colon node read back as the same children. */
  lemma ElementsRoundTrip(cs: seq<Node>)
    requires forall i :: 0 <= i < |cs| ==> Portable(cs[i])
    ensures Elements(ChildrenJson(cs, 0), 0) == Ok(cs)
  {
    PortableReadsBack(cs, 0);
    ElementsOf(ChildrenJson(cs, 0), cs, 0);
    assert cs[0..] == cs;
  }

  /**
   * `as_json` and back: a colon root whose children are portable is read
   * back from its structured form as the same tree.
   */
  lemma RoundTrip(root: Node)
    requires root.ColonSeparatedVariables? && forall i :: 0 <= i < |root.children| ==> Portable(root.children[i])
    ensures ParseMessageFormat(AsJson(root)) == Ok(root)
  {
    var cs := root.children;
    TaggedMembers("ColonSeparatedVariables", JArray(ChildrenJson(cs, 0)));
    ElementsRoundTrip(cs);
  }

  // ---------------------------------------------------------------------
  // Node equality
  // ---------------------------------------------------------------------

  /**
   * `Hash#==` on two keyword hashes: the same number of entries, and every
   * keyword of the first maps to the same variable name in the second.
   */
  predicate SameHash(p: seq<(string, string)>, q: seq<(string, string)>)
  {
    |p| == |q| && forall i :: 0 <= i < |p| ==> Lookup(q, p[i].0) == Some(p[i].1)
  }

  /**
   * `Node#==`: `Comparable#==` on `fields <=> other.fields`.  The class is
   * not compared, so a colon node and a comma node with the same variables
   * are equal; a literal (a string) never equals a variable (a symbol).
   */
  predicate NodeEq(a: Node, b: Node)
    decreases a
  {
    match a
    case Literal(x) => b.Literal? && b.text == x
    case Variable(x) => b.Variable? && b.name == x
    case CommaSeparatedKeywordVariables(p) => b.CommaSeparatedKeywordVariables? && SameHash(p, b.keywords)
    case ColonSeparatedVariables(xs) =>
      || (b.ColonSeparatedVariables? && |xs| == |b.children|
          && forall i :: 0 <= i < |xs| ==> NodeEq(xs[i], b.children[i]))
      || (b.CommaSeparatedVariables? && |xs| == |b.names|
          && forall i :: 0 <= i < |xs| ==> xs[i] == Variable(b.names[i]))
    case CommaSeparatedVariables(ns) =>
      || (b.CommaSeparatedVariables? && ns == b.names)
      || (b.ColonSeparatedVariables? && |ns| == |b.children|
          && forall i :: 0 <= i < |ns| ==> b.children[i] == Variable(ns[i]))
  }

  /** Every keyword hash in the tree has distinct keys, as a Ruby hash does. */
  predicate WellFormed(n: Node)
  {
    match n
    case CommaSeparatedKeywordVariables(kvs) => DistinctKeys(kvs)
    case ColonSeparatedVariables(cs) => forall i :: 0 <= i < |cs| ==> WellFormed(cs[i])
    case _ => true
  }

  /** In a hash, looking up the key of an entry gives the entry's value. */
  lemma {:induction false} LookupEntry(kvs: seq<(string, string)>, j: nat)
    requires DistinctKeys(kvs) && j < |kvs|
    ensures Lookup(kvs, kvs[j].0) == Some(kvs[j].1)
  {
    if j > 0 {
      assert kvs[0].0 != kvs[j].0;
      assert kvs[1..][j - 1] == kvs[j];
      LookupEntry(kvs[1..], j - 1);
    }
  }

  /** Two hashes holding the same entries in any order are equal. */
  lemma SameEntries(p: seq<(string, string)>, q: seq<(string, string)>)
    requires DistinctKeys(q) && |p| == |q|
    requires forall i :: 0 <= i < |p| ==> p[i] in q
    ensures SameHash(p, q)
  {
    forall i | 0 <= i < |p| ensures Lookup(q, p[i].0) == Some(p[i].1) {
      var j :| 0 <= j < |q| && q[j] == p[i];
      LookupEntry(q, j);
    }
  }

  /** Node equality is reflexive on well-formed trees. */
  lemma {:induction false} NodeEqReflexive(a: Node)
    requires WellFormed(a)
    ensures NodeEq(a, a)
  {
    match a
    case CommaSeparatedKeywordVariables(p) =>
      SameEntries(p, p);
    case ColonSeparatedVariables(xs) =>
      forall i | 0 <= i < |xs| ensures NodeEq(xs[i], xs[i]) {
        NodeEqReflexive(xs[i]);
      }
    case _ =>
  }

  /** Hash equality is symmetric on hashes. */
  lemma SameHashSymmetric(p: seq<(string, string)>, q: seq<(string, string)>)
    requires DistinctKeys(p) && DistinctKeys(q) && SameHash(p, q)
    ensures SameHash(q, p)
  {
    forall j | 0 <= j < |q| ensures Lookup(p, q[j].0) == Some(q[j].1) {
      // Every entry of p is in q; as both have the same size and distinct keys,
      // every entry of q is the image of one of p.
      var keysP := set i | 0 <= i < |p| :: p[i].0;
      var keysQ := set i | 0 <= i < |q| :: q[i].0;
      assert keysP <= keysQ by {
        forall i | 0 <= i < |p| ensures p[i].0 in keysQ {
          var k :| 0 <= k < |q| && q[k] == (p[i].0, p[i].1);
        }
      }
      DistinctKeysCount(p);
      DistinctKeysCount(q);
      assert keysP == keysQ by {
        SubsetEqualSize(keysP, keysQ);
      }
      assert q[j].0 in keysP;
      var i :| 0 <= i < |p| && p[i].0 == q[j].0;
      var k :| 0 <= k < |q| && q[k] == (p[i].0, p[i].1);
      assert k == j;
      LookupEntry(p, i);
    }
  }

  /** A list with distinct keys has as many keys as entries. */
  lemma {:induction false} DistinctKeysCount(kvs: seq<(string, string)>)
    requires DistinctKeys(kvs)
    ensures |set i | 0 <= i < |kvs| :: kvs[i].0| == |kvs|
  {
    if kvs != [] {
      var rest := kvs[1..];
      DistinctKeysCount(rest);
      var all := set i | 0 <= i < |kvs| :: kvs[i].0;
      var tail := set i | 0 <= i < |rest| :: rest[i].0;
      assert all == tail + {kvs[0].0} by {
        forall k | k in all ensures k in tail + {kvs[0].0} {
          var i :| 0 <= i < |kvs| && kvs[i].0 == k;
          if i > 0 { assert rest[i - 1] == kvs[i]; }
        }
      }
      assert kvs[0].0 !in tail by {
        forall i | 0 <= i < |rest| ensures rest[i].0 != kvs[0].0 {
          assert rest[i] == kvs[i + 1];
        }
      }
    }
  }

  /** A subset as large as its superset is the superset. */
  lemma {:induction false} SubsetEqualSize<T>(a: set<T>, b: set<T>)
    requires a <= b
    ensures |a| <= |b|
    ensures |a| == |b| ==> a == b
  {
    if a != {} {
      var x :| x in a;
      SubsetEqualSize(a - {x}, b - {x});
    }
  }

  /** Node equality is symmetric on well-formed trees. */
  lemma {:induction false} NodeEqSymmetric(a: Node, b: Node)
    requires WellFormed(a) && WellFormed(b) && NodeEq(a, b)
    ensures NodeEq(b, a)
  {
    match a
    case CommaSeparatedKeywordVariables(p) =>
      SameHashSymmetric(p, b.keywords);
    case ColonSeparatedVariables(xs) =>
      if b.ColonSeparatedVariables? && |xs| == |b.children| && forall i :: 0 <= i < |xs| ==> NodeEq(xs[i], b.children[i]) {
        forall i | 0 <= i < |xs| ensures NodeEq(b.children[i], xs[i]) {
          NodeEqSymmetric(xs[i], b.children[i]);
        }
      }
    case _ =>
  }

  /** The class is not compared: a colon node of variables equals the comma node of the same variables. */
  lemma ColonEqualsComma(ns: seq<string>)
    ensures NodeEq(ColonSeparatedVariables(Variables(ns)), CommaSeparatedVariables(ns))
  {
  }

  /** A variable node for each name. */
  function Variables(ns: seq<string>): (r: seq<Node>)
    ensures |r| == |ns| && forall i {:trigger r[i]} :: 0 <= i < |ns| ==> r[i] == Variable(ns[i])
  {
    if ns == [] then [] else [Variable(ns[0])] + Variables(ns[1..])
  }

  /** Keyword order does not matter to node equality. */
  lemma KeywordOrderIgnored(p: seq<(string, string)>, q: seq<(string, string)>)
    requires DistinctKeys(q) && |p| == |q| && forall i :: 0 <= i < |p| ==> p[i] in q
    ensures NodeEq(CommaSeparatedKeywordVariables(p), CommaSeparatedKeywordVariables(q))
  {
    SameEntries(p, q);
  }

  /** A literal only equals the literal with the same text, never a variable. */
  lemma LiteralEquality(t: string, b: Node)
    ensures NodeEq(Literal(t), b) <==> b == Literal(t)
  {
  }

  /** The keyword pairs of a format string keep their keys in order. */
  lemma {:induction false} KeywordPairsKeys(pairs: seq<string>)
    requires KeywordPairs(pairs).Ok?
    ensures forall i :: 0 <= i < |pairs| ==> CutAtEquals(pairs[i]).Some?
    ensures forall i :: 0 <= i < |pairs| ==>
      KeywordPairs(pairs).value[i] == (CutAtEquals(pairs[i]).value.0, OptionalVariable(CutAtEquals(pairs[i]).value.1))
  {
    if pairs != [] {
      KeywordPairsKeys(pairs[1..]);
    }
  }

  /** Every child a format string yields is portable, apart from the names. */
  lemma ParsedChildShape(s: string)
    requires Classify(s).Ok?
    ensures !Classify(s).value.ColonSeparatedVariables?
    ensures Classify(s).value.CommaSeparatedKeywordVariables? ==> DistinctKeys(Classify(s).value.keywords)
  {
    if '=' in s {
      var pairs := KeywordPairs(Segments(s, ',').value).value;
      ToHashDistinct([], pairs);
    }
  }

  /** The names of a node. */
  function NamesOf(n: Node): (r: seq<string>)
    ensures n.Variable? ==> r == [n.name]
    ensures n.CommaSeparatedVariables? ==> r == n.names
    ensures n.CommaSeparatedKeywordVariables? ==> |r| == |n.keywords| && forall i {:trigger r[i]} :: 0 <= i < |r| ==> r[i] == n.keywords[i].1
    ensures n.Literal? || n.ColonSeparatedVariables? ==> r == []
  {
    match n
    case Variable(x) => [x]
    case CommaSeparatedVariables(ns) => ns
    case CommaSeparatedKeywordVariables(kvs) => ValuesOf(kvs)
    case _ => []
  }

  /** The variable names of a keyword hash, in order. */
  function ValuesOf(kvs: seq<(string, string)>): (r: seq<string>)
    ensures |r| == |kvs| && forall i {:trigger r[i]} :: 0 <= i < |kvs| ==> r[i] == kvs[i].1
  {
    if kvs == [] then [] else [kvs[0].1] + ValuesOf(kvs[1..])
  }

  /** A child that is not a colon node, has distinct keywords and stable names is portable. */
  lemma PortableChild(c: Node)
    requires !c.ColonSeparatedVariables?
    requires c.CommaSeparatedKeywordVariables? ==> DistinctKeys(c.keywords)
    requires forall j :: 0 <= j < |NamesOf(c)| ==> StableName(NamesOf(c)[j])
    ensures Portable(c)
  {
    match c
    case Variable(x) =>
      assert NamesOf(c)[0] == x;
    case CommaSeparatedKeywordVariables(kvs) =>
      forall j | 0 <= j < |kvs| ensures StableName(kvs[j].1) {
        assert NamesOf(c)[j] == kvs[j].1;
      }
    case CommaSeparatedVariables(ns) =>
      forall j | 0 <= j < |ns| ensures StableName(ns[j]) {
        assert NamesOf(c)[j] == ns[j];
      }
    case Literal(_) =>
  }

  /**
   * `as_json` and back on any format string: the tree read back is the tree
   * the string gave, provided `OptionalVariable` leaves its names alone.
   */
  lemma ParsedRoundTrip(s: string)
    requires ParseMessageFormat(JString(s)).Ok?
    requires var root := ParseMessageFormat(JString(s)).value;
             forall i, j :: 0 <= i < |root.children| && 0 <= j < |NamesOf(root.children[i])| ==>
               StableName(NamesOf(root.children[i])[j])
    ensures ParseMessageFormat(AsJson(ParseMessageFormat(JString(s)).value)) == ParseMessageFormat(JString(s))
  {
    var root := ParseMessageFormat(JString(s)).value;
    FormatStringRoot(s);
    var segments := Segments(s, ':').value;
    forall i | 0 <= i < |root.children| ensures Portable(root.children[i]) {
      ParsedChildShape(segments[i]);
      PortableChild(root.children[i]);
    }
    RoundTrip(root);
  }

  /** A format string with no ':' and no quote is a root with one classified child. */
  lemma SingleSegmentParse(s: string)
    requires ':' !in s && '"' !in s && Classify(s).Ok?
    ensures ParseMessageFormat(JString(s)) == Ok(ColonSeparatedVariables([Classify(s).value]))
  {
    assert Segments(s, ':') == Ok([s]) by {
      NoQuoteIntact(s, ':');
      assert Join([s], ':') == s;
      JoinSegments([s], ':');
    }
    var r := ClassifyAll([s]);
    assert [s][0] == s;
    assert r.value == [r.value[0]];
  }

  /** A root holding one variable comes back with `OptionalVariable` applied to the name. */
  lemma SingleVariableJson(x: string)
    ensures ParseMessageFormat(AsJson(ColonSeparatedVariables([Variable(x)])))
         == Ok(ColonSeparatedVariables([Variable(OptionalVariable(x))]))
  {
    var cs := [Variable(x)];
    var items := ChildrenJson(cs, 0);
    var n := Variable(OptionalVariable(x));
    assert AsJson(ColonSeparatedVariables(cs)) == Tagged("ColonSeparatedVariables", JArray(items));
    TaggedMembers("ColonSeparatedVariables", JArray(items));
    assert Elements(items, 0) == Ok([n]) by {
      assert ColonSeparatedElement(items[0]) == Ok(n) by {
        ChildrenJsonAt(cs, 0, 0);
        VariableElement(x);
      }
      assert Elements(items, 1) == Ok([]);
      ElementsCons(items, 0);
      assert [n] + [] == [n];
    }
  }

  /** The format string `<<x>>` gives a root holding one variable named `<x>`. */
  lemma BracketedNameParse(x: string)
    requires ':' !in x && '"' !in x && '=' !in x && ',' !in x && '\n' !in x
    ensures ParseMessageFormat(JString("<<" + x + ">>")) == Ok(ColonSeparatedVariables([Variable("<" + x + ">")]))
  {
    var s := "<<" + x + ">>";
    var inner := "<" + x + ">";
    assert s == "<" + inner + ">";
    assert Bracketed(s) && s[1..|s| - 1] == inner;
    assert ':' !in s && '"' !in s && '=' !in s && ',' !in s;
    assert Classify(s) == Ok(Variable(inner));
    SingleSegmentParse(s);
  }

  /**
   * A name written `<<x>>` in a format string does not survive the
   * structured form: `as_json` writes `<x>` and `from_json` strips the
   * brackets again, so the tree read back is not equal to the original.
   */
  lemma BracketedNameRoundTrip(x: string)
    requires ':' !in x && '"' !in x && '=' !in x && ',' !in x && '\n' !in x
    ensures var s := "<<" + x + ">>";
            && ParseMessageFormat(JString(s)) == Ok(ColonSeparatedVariables([Variable("<" + x + ">")]))
            && ParseMessageFormat(AsJson(ColonSeparatedVariables([Variable("<" + x + ">")])))
               == Ok(ColonSeparatedVariables([Variable(x)]))
            && !NodeEq(ColonSeparatedVariables([Variable(x)]), ColonSeparatedVariables([Variable("<" + x + ">")]))
  {
    var inner := "<" + x + ">";
    BracketedNameParse(x);
    SingleVariableJson(inner);
    assert OptionalVariable(inner) == x by {
      assert Bracketed(inner) && inner[1..|inner| - 1] == x;
    }
    assert !NodeEq(Variable(x), Variable(inner)) by {
      assert |x| < |inner|;
    }
  }
}
