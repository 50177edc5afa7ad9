/**
 * `format` on every node of lib/tl1/ast.rb: a message built from a tree and
 * the values of its variables.
 *
 * Values are given as a map from variable name to text.  A variable with no
 * value is written as the empty text, as Ruby's `Array#join` writes `nil`;
 * a keyword whose variable has no value is left out of its group.
 */
module Rendering {
  import opened Split
  import opened Ast

  /** `kwargs[name]` as `join` writes it: the value, or nothing for `nil`. */
  function ValueOf(values: map<string, string>, name: string): string
  {
    if name in values then values[name] else ""
  }

  /** The variable names a tree mentions, keyword variables included. */
  function VariablesOf(n: Node): (r: set<string>)
    ensures n.Variable? ==> r == {n.name}
    ensures n.Literal? ==> r == {}
    decreases n, 1
  {
    match n
    case Literal(_) => {}
    case Variable(x) => {x}
    case ColonSeparatedVariables(cs) => ChildVariables(cs, 0)
    case CommaSeparatedVariables(ns) => set i | 0 <= i < |ns| :: ns[i]
    case CommaSeparatedKeywordVariables(kvs) => set i | 0 <= i < |kvs| :: kvs[i].1
  }

  /** The variable names the children of a colon node mention, from index `from` on. */
  function ChildVariables(cs: seq<Node>, from: nat): (r: set<string>)
    requires from <= |cs|
    decreases ColonSeparatedVariables(cs), 0, |cs| - from
  {
    if from == |cs| then {}
    else
      assert cs[from] in cs;
      VariablesOf(cs[from]) + ChildVariables(cs, from + 1)
  }

  /** `format`: the message text of a tree for the given variable values. */
  function Format(n: Node, values: map<string, string>): string
    decreases n, 1
  {
    match n
    case Literal(t) => t
    case Variable(x) => ValueOf(values, x)
    case ColonSeparatedVariables(cs) => Join(FormatChildren(cs, values, 0), ':')
    case CommaSeparatedVariables(ns) => Join(VariableTexts(ns, values), ',')
    case CommaSeparatedKeywordVariables(kvs) => Join(Assignments(kvs, values), ',')
  }

  /** The texts of the children of a colon node from index `from` on. */
  function FormatChildren(cs: seq<Node>, values: map<string, string>, from: nat): (r: seq<string>)
    requires from <= |cs|
    ensures |r| == |cs| - from
    decreases ColonSeparatedVariables(cs), 0, |cs| - from
  {
    if from == |cs| then []
    else
      assert cs[from] in cs;
      [Format(cs[from], values)] + FormatChildren(cs, values, from + 1)
  }

  /** The text of each variable of a comma node. */
  function VariableTexts(ns: seq<string>, values: map<string, string>): (r: seq<string>)
    ensures |r| == |ns|
    ensures forall i {:trigger r[i]} :: 0 <= i < |ns| ==> r[i] == ValueOf(values, ns[i])
  {
    if ns == [] then [] else [ValueOf(values, ns[0])] + VariableTexts(ns[1..], values)
  }

  /** `keyword=value` for each keyword whose variable has a value, in the order of the hash. */
  function Assignments(kvs: seq<(string, string)>, values: map<string, string>): (r: seq<string>)
    ensures |r| == |Present(kvs, values)|
  {
    if kvs == [] then []
    else
      var rest := Assignments(kvs[1..], values);
      if kvs[0].1 in values then [kvs[0].0 + "=" + values[kvs[0].1]] + rest else rest
  }

  /** The keywords whose variable has a value, in the order of the hash. */
  function Present(kvs: seq<(string, string)>, values: map<string, string>): (r: seq<(string, string)>)
  {
    if kvs == [] then []
    else
      var rest := Present(kvs[1..], values);
      if kvs[0].1 in values then [kvs[0]] + rest else rest
  }

  /**
   * A keyword group writes exactly the keywords whose variable has a value,
   * each as `keyword=value`, and nothing for the others.
   */
  lemma {:induction false} AssignmentsPresent(kvs: seq<(string, string)>, values: map<string, string>)
    ensures var p := Present(kvs, values);
            && |Assignments(kvs, values)| == |p|
            && (forall i :: 0 <= i < |p| ==> p[i] in kvs && p[i].1 in values)
            && (forall i :: 0 <= i < |p| ==> Assignments(kvs, values)[i] == p[i].0 + "=" + values[p[i].1])
            && (forall j :: 0 <= j < |kvs| && kvs[j].1 in values ==> kvs[j] in p)
  {
    if kvs != [] {
      AssignmentsPresent(kvs[1..], values);
      var p := Present(kvs, values);
      var rest := Present(kvs[1..], values);
      forall i | 0 <= i < |p| ensures p[i] in kvs {
        if kvs[0].1 in values && i > 0 {
          assert p[i] == rest[i - 1];
          assert rest[i - 1] in kvs[1..];
        } else if kvs[0].1 !in values {
          assert p[i] in kvs[1..];
        }
      }
      forall j | 0 <= j < |kvs| && kvs[j].1 in values ensures kvs[j] in p {
        if j > 0 {
          assert kvs[j] == kvs[1..][j - 1];
        }
      }
    }
  }

  /**
   * A message depends only on the values of the variables its tree
   * mentions: two value maps that agree on them give the same text.
   */
  lemma {:induction false} FormatLocal(n: Node, v: map<string, string>, w: map<string, string>)
    requires forall x :: x in VariablesOf(n) ==> ValueOf(v, x) == ValueOf(w, x) && (x in v <==> x in w)
    ensures Format(n, v) == Format(n, w)
    decreases n, 1
  {
    match n
    case Literal(_) =>
    case Variable(x) =>
    case ColonSeparatedVariables(cs) =>
      ChildrenLocal(cs, v, w, 0);
    case CommaSeparatedVariables(ns) =>
      assert VariableTexts(ns, v) == VariableTexts(ns, w) by {
        forall i | 0 <= i < |ns| ensures ValueOf(v, ns[i]) == ValueOf(w, ns[i]) {
          assert ns[i] in VariablesOf(n);
        }
      }
    case CommaSeparatedKeywordVariables(kvs) =>
      AssignmentsLocal(kvs, v, w);
  }

  /** The children of a colon node depend only on the values of the variables they mention. */
  lemma {:induction false} ChildrenLocal(cs: seq<Node>, v: map<string, string>, w: map<string, string>, from: nat)
    requires from <= |cs|
    requires forall x :: x in ChildVariables(cs, from) ==> ValueOf(v, x) == ValueOf(w, x) && (x in v <==> x in w)
    ensures FormatChildren(cs, v, from) == FormatChildren(cs, w, from)
    decreases ColonSeparatedVariables(cs), 0, |cs| - from
  {
    if from < |cs| {
      assert cs[from] in cs;
      FormatLocal(cs[from], v, w);
      ChildrenLocal(cs, v, w, from + 1);
    }
  }

  /** A keyword group depends only on the values of its variables. */
  lemma {:induction false} AssignmentsLocal(kvs: seq<(string, string)>, v: map<string, string>, w: map<string, string>)
    requires forall i :: 0 <= i < |kvs| ==> ValueOf(v, kvs[i].1) == ValueOf(w, kvs[i].1) && (kvs[i].1 in v <==> kvs[i].1 in w)
    ensures Assignments(kvs, v) == Assignments(kvs, w)
  {
    if kvs != [] {
      AssignmentsLocal(kvs[1..], v, w);
    }
  }
}
