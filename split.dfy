/**
 * The quote-aware splitter of lib/tl1/ast.rb (`AST.split`, `AST.split_quoted`,
 * `AST.remove_quotes`) and `Array#join`, its inverse.
 *
 * `Segments` is the specification of `split`: it reads the text from the
 * front, and a '"' copies everything up to and including the next '"' into
 * the current segment.  `Split` and `SplitQuoted` are the cursor loops of the
 * Ruby code, proved equal to it.
 */
module Split {
  import opened Wrappers

  /** Position of the first `c` in `t`: where `split_quoted` stops for '"', and `split('=', 2)` cuts. */
  function IndexOf(t: string, c: char): (r: Option<nat>)
    ensures r.Some? ==> r.value < |t| && t[r.value] == c && c !in t[..r.value]
    ensures r.None? ==> c !in t
  {
    if t == [] then None
    else if t[0] == c then Some(0)
    else
      match IndexOf(t[1..], c)
      case None => None
      case Some(k) =>
        assert t[..k + 1] == [t[0]] + t[1..][..k];
        Some(k + 1)
  }

  /** The first `c` is the one `IndexOf` finds. */
  lemma IndexOfFirst(t: string, k: nat, c: char)
    requires k < |t| && t[k] == c && c !in t[..k]
    ensures IndexOf(t, c) == Some(k)
    decreases k
  {
    if k > 0 {
      assert t[0] in t[..k];
      assert t[1..][..k - 1] == t[1..k];
      IndexOfFirst(t[1..], k - 1, c);
    }
  }

  /**
   * One unit of a segment: a character that is neither the delimiter nor a
   * quote, or a closed quoted span.
   */
  predicate Unit(u: string, d: char)
  {
    || (|u| == 1 && u[0] != d && u[0] != '"')
    || (|u| >= 2 && d != '"' && u[0] == '"' && u[|u| - 1] == '"' && '"' !in u[1..|u| - 1])
  }

  /** Length of the unit at the front of `s`; none when a quote there is never closed. */
  function UnitLength(s: string, d: char): (r: Option<nat>)
    requires s != [] && s[0] != d
    ensures r.Some? ==> 1 <= r.value <= |s| && Unit(s[..r.value], d)
    ensures r.None? <==> s[0] == '"' && '"' !in s[1..]
  {
    if s[0] == '"' then
      match IndexOf(s[1..], '"')
      case None => None
      case Some(k) =>
        assert s[..k + 2][1..k + 1] == s[1..][..k];
        Some(k + 2)
    else Some(1)
  }

  /** The unit length of a text that starts with a unit is the length of that unit. */
  lemma UnitLengthOfUnit(u: string, t: string, d: char)
    requires Unit(u, d)
    ensures (u + t)[0] == u[0] != d
    ensures UnitLength(u + t, d) == Some(|u|)
    ensures (u + t)[..|u|] == u && (u + t)[|u|..] == t
  {
    var s := u + t;
    assert s[..|u|] == u && s[|u|..] == t;
    if |u| >= 2 {
      assert s[1..][..|u| - 2] == u[1..|u| - 1];
      IndexOfFirst(s[1..], |u| - 2, '"');
    }
  }

  /** The text of a unit joins the first of the segments that follow it. */
  function Attach(u: string, rest: Result<seq<string>>): Result<seq<string>>
  {
    match rest
    case Err(e) => Err(e)
    case Ok(r) => if |r| == 0 then Ok([u]) else Ok([u + r[0]] + r[1..])
  }

  /** A delimiter starts a new, so far empty, segment. */
  function NewSegment(rest: Result<seq<string>>): Result<seq<string>>
  {
    match rest
    case Err(e) => Err(e)
    case Ok(r) => Ok([""] + r)
  }

  /**
   * The segments `AST.split(s, d)` returns: a delimiter outside a quoted span
   * starts a new segment, a quoted span is copied verbatim with both quotes,
   * and a span with no closing quote raises.
   */
  function Segments(s: string, d: char): (r: Result<seq<string>>)
    ensures r.Ok? ==> |r.value| >= 1
    ensures r.Err? ==> r.error == UnexpectedEndOfQuotedString
    decreases |s|
  {
    if s == [] then Ok([""])
    else if s[0] == d then NewSegment(Segments(s[1..], d))
    else
      match UnitLength(s, d)
      case None => Err(UnexpectedEndOfQuotedString)
      case Some(n) => Attach(s[..n], Segments(s[n..], d))
  }

  /** A unit in front of a text joins the first segment of that text. */
  lemma SegmentsUnit(u: string, t: string, d: char)
    requires Unit(u, d)
    ensures Segments(u + t, d) == Attach(u, Segments(t, d))
  {
    UnitLengthOfUnit(u, t, d);
  }

  /** `Array#join`: the parts with `d` between each two. */
  function Join(parts: seq<string>, d: char): string
  {
    if |parts| == 0 then ""
    else if |parts| == 1 then parts[0]
    else parts[0] + [d] + Join(parts[1..], d)
  }

  /** Text prepended to the first part comes first in the joined text. */
  lemma JoinPrepend(p: string, parts: seq<string>, d: char)
    requires |parts| >= 1
    ensures Join([p + parts[0]] + parts[1..], d) == p + Join(parts, d)
  {
    var q := [p + parts[0]] + parts[1..];
    assert q[1..] == parts[1..];
  }

  /**
   * A segment as `split` can return it: no delimiter outside a quoted span,
   * and every quoted span closed.
   */
  predicate Intact(seg: string, d: char)
    decreases |seg|
  {
    || seg == []
    || (&& seg[0] != d
        && match UnitLength(seg, d)
           case None => false
           case Some(n) => Intact(seg[n..], d))
  }

  /** Text with neither the delimiter nor a quote is intact. */
  lemma {:induction false} NoQuoteIntact(p: string, d: char)
    requires forall k :: 0 <= k < |p| ==> p[k] != d && p[k] != '"'
    ensures Intact(p, d)
    decreases |p|
  {
    if p != [] {
      assert UnitLength(p, d) == Some(1);
      NoQuoteIntact(p[1..], d);
    }
  }

  /** Number of delimiters that lie outside quoted spans. */
  function OuterDelimiters(s: string, d: char): nat
    decreases |s|
  {
    if s == [] then 0
    else if s[0] == d then 1 + OuterDelimiters(s[1..], d)
    else
      match UnitLength(s, d)
      case None => 0
      case Some(n) => OuterDelimiters(s[n..], d)
  }

  /** Joining the segments with the delimiter gives back the text. */
  lemma {:induction false} SegmentsJoin(s: string, d: char)
    requires Segments(s, d).Ok?
    ensures Join(Segments(s, d).value, d) == s
    decreases |s|
  {
    if s == [] {
    } else if s[0] == d {
      var rest := Segments(s[1..], d).value;
      assert Join(rest, d) == s[1..] by {
        SegmentsJoin(s[1..], d);
      }
      assert Segments(s, d).value == [""] + rest;
      assert ([""] + rest)[1..] == rest;
      assert s == [d] + s[1..];
    } else {
      var n := UnitLength(s, d).value;
      var rest := Segments(s[n..], d).value;
      assert Join(rest, d) == s[n..] by {
        SegmentsJoin(s[n..], d);
      }
      assert Segments(s, d).value == [s[..n] + rest[0]] + rest[1..];
      JoinPrepend(s[..n], rest, d);
      assert s == s[..n] + s[n..];
    }
  }

  /** A unit followed by an intact segment is intact. */
  lemma IntactUnit(u: string, x: string, d: char)
    requires Unit(u, d) && Intact(x, d)
    ensures Intact(u + x, d)
  {
    UnitLengthOfUnit(u, x, d);
  }

  /** Every segment `split` returns is intact. */
  lemma {:induction false} SegmentsIntact(s: string, d: char)
    requires Segments(s, d).Ok?
    ensures forall i :: 0 <= i < |Segments(s, d).value| ==> Intact(Segments(s, d).value[i], d)
    decreases |s|
  {
    if s == [] {
    } else if s[0] == d {
      SegmentsIntact(s[1..], d);
    } else {
      var n := UnitLength(s, d).value;
      SegmentsIntact(s[n..], d);
      IntactUnit(s[..n], Segments(s[n..], d).value[0], d);
    }
  }

  /** An intact segment that is not empty starts with a unit. */
  lemma IntactHead(p: string, d: char) returns (n: nat)
    requires Intact(p, d) && p != []
    ensures 1 <= n <= |p| && Unit(p[..n], d) && Intact(p[n..], d)
  {
    n := UnitLength(p, d).value;
  }

  /**
   * Splitting the join of intact parts gives the parts back: together with
   * `SegmentsJoin` and `SegmentsIntact`, `split` returns the one way of
   * cutting the text into intact segments.
   */
  lemma {:induction false} JoinSegments(parts: seq<string>, d: char)
    requires |parts| >= 1
    requires forall i :: 0 <= i < |parts| ==> Intact(parts[i], d)
    ensures Segments(Join(parts, d), d) == Ok(parts)
    decreases |Join(parts, d)|
  {
    var s := Join(parts, d);
    var p := parts[0];
    if p == [] {
      if |parts| == 1 {
        assert parts == [""];
      } else {
        assert s == [d] + Join(parts[1..], d);
        assert s[1..] == Join(parts[1..], d);
        JoinSegments(parts[1..], d);
        assert [""] + parts[1..] == parts;
      }
    } else {
      var n := IntactHead(p, d);
      var u := p[..n];
      var tail := [p[n..]] + parts[1..];
      assert tail[1..] == parts[1..];
      assert p == u + p[n..];
      JoinPrepend(u, tail, d);
      assert [u + p[n..]] + parts[1..] == parts;
      forall i | 0 <= i < |tail| ensures Intact(tail[i], d) {
        if i > 0 { assert tail[i] == parts[i]; }
      }
      JoinSegments(tail, d);
      SegmentsUnit(u, Join(tail, d), d);
    }
  }

  /** `split` returns one segment more than there are delimiters outside quotes. */
  lemma {:induction false} SegmentsCount(s: string, d: char)
    requires Segments(s, d).Ok?
    ensures |Segments(s, d).value| == 1 + OuterDelimiters(s, d)
    decreases |s|
  {
    if s == [] {
    } else if s[0] == d {
      SegmentsCount(s[1..], d);
    } else {
      SegmentsCount(s[UnitLength(s, d).value..], d);
    }
  }

  /**
   * A quote opened after text that splits cleanly, and never closed, makes
   * `split` raise "Unexpected end of quoted string".
   */
  lemma {:induction false} UnclosedQuote(p: string, t: string, d: char)
    requires d != '"' && Segments(p, d).Ok? && '"' !in t
    ensures Segments(p + "\"" + t, d) == Err(UnexpectedEndOfQuotedString)
    decreases |p|
  {
    var s := p + "\"" + t;
    if p == [] {
      assert s == "\"" + t;
      assert s[1..] == t;
    } else if p[0] == d {
      assert s[1..] == p[1..] + "\"" + t;
      UnclosedQuote(p[1..], t, d);
    } else {
      var n := UnitLength(p, d).value;
      UnitLengthOfUnit(p[..n], p[n..] + "\"" + t, d);
      assert s == p[..n] + (p[n..] + "\"" + t);
      UnclosedQuote(p[n..], t, d);
    }
  }

  /** Attaching two texts one after the other attaches their concatenation. */
  lemma AttachTwice(x: string, u: string, rest: Result<seq<string>>)
    ensures Attach(x, Attach(u, rest)) == Attach(x + u, rest)
  {
    if rest.Ok? && |rest.value| > 0 {
      var r := rest.value;
      var a := [u + r[0]] + r[1..];
      assert a[0] == u + r[0] && a[1..] == r[1..];
      assert x + (u + r[0]) == (x + u) + r[0];
    } else if rest.Ok? {
      assert [u][0] == u && [u][1..] == [];
      assert [x + u] + [] == [x + u];
    }
  }

  /** Stitches the segments already read in front of the segments of the rest. */
  function Merge(done: seq<string>, rest: Result<seq<string>>): Result<seq<string>>
    requires |done| >= 1
  {
    match Attach(done[|done| - 1], rest)
    case Err(e) => Err(e)
    case Ok(r) => Ok(done[..|done| - 1] + r)
  }

  /** Before anything is read, the segments are those of the whole text. */
  lemma MergeFirst(rest: Result<seq<string>>)
    requires rest.Ok? ==> |rest.value| >= 1
    ensures Merge([""], rest) == rest
  {
    if rest.Ok? {
      var r := rest.value;
      assert Attach("", rest) == Ok(r) by {
        assert "" + r[0] == r[0];
        assert [r[0]] + r[1..] == r;
      }
      assert [""][..0] + r == r;
    }
  }

  /** At the end of the text, the segments read are all there is. */
  lemma MergeLast(done: seq<string>, d: char)
    requires |done| >= 1
    ensures Merge(done, Segments([], d)) == Ok(done)
  {
    var n := |done|;
    assert Segments([], d) == Ok([""]);
    assert Attach(done[n - 1], Ok([""])) == Ok([done[n - 1]]) by {
      assert [""][0] == "" && [""][1..] == [];
      assert done[n - 1] + "" == done[n - 1];
      assert [done[n - 1]] + [] == [done[n - 1]];
    }
    assert done[..n - 1] + [done[n - 1]] == done;
  }

  /** A delimiter closes the last segment read and opens an empty one. */
  lemma MergeDelimiter(done: seq<string>, t: string, d: char)
    requires |done| >= 1 && |t| >= 1 && t[0] == d
    ensures Merge(done, Segments(t, d)) == Merge(done + [""], Segments(t[1..], d))
  {
    var rest := Segments(t[1..], d);
    assert Segments(t, d) == NewSegment(rest);
    if rest.Ok? {
      var r := rest.value;
      var n := |done|;
      var last := done[n - 1];
      assert Attach(last, NewSegment(rest)) == Ok([last] + r) by {
        assert ([""] + r)[0] == "" && ([""] + r)[1..] == r;
        assert last + "" == last;
      }
      assert done[..n - 1] + ([last] + r) == done + r;
      assert Attach("", rest) == rest by {
        assert "" + r[0] == r[0];
        assert [r[0]] + r[1..] == r;
      }
      assert (done + [""])[..n] == done;
    }
  }

  /** A unit is appended to the last segment read. */
  lemma MergeUnit(done: seq<string>, u: string, t: string, d: char)
    requires |done| >= 1 && Unit(u, d)
    ensures Merge(done, Segments(u + t, d))
         == Merge(done[..|done| - 1] + [done[|done| - 1] + u], Segments(t, d))
  {
    var n := |done|;
    var next := done[..n - 1] + [done[n - 1] + u];
    assert Attach(done[n - 1], Segments(u + t, d)) == Attach(done[n - 1] + u, Segments(t, d)) by {
      SegmentsUnit(u, t, d);
      AttachTwice(done[n - 1], u, Segments(t, d));
    }
    assert next[..n - 1] == done[..n - 1] && next[n - 1] == done[n - 1] + u;
  }

  /** `AST.split_quoted`: reads from just after an opening '"' up to and including the closing one. */
  method SplitQuoted(s: string, start: nat) returns (r: Result<(string, nat)>)
    requires start <= |s|
    ensures match IndexOf(s[start..], '"')
      case None => r == Err(UnexpectedEndOfQuotedString)
      case Some(k) => r == Ok(("\"" + s[start..start + k + 1], start + k + 1))
  {
    var span := "\"";
    var i := start;
    while true
      invariant start <= i <= |s|
      invariant span == "\"" + s[start..i]
      invariant '"' !in s[start..i]
      decreases |s| - i
    {
      if i == |s| {
        assert s[start..] == s[start..i];
        return Err(UnexpectedEndOfQuotedString);
      }
      var c := s[i];
      if c == '"' {
        assert s[start..][..i - start] == s[start..i];
        IndexOfFirst(s[start..], i - start, '"');
        assert s[start..i + 1] == s[start..i] + [c];
        assert "\"" + s[start..start + (i - start) + 1] == span + [c];
        return Ok((span + [c], i + 1));
      }
      assert s[start..i + 1] == s[start..i] + [c];
      i := i + 1;
      span := span + [c];
    }
  }

  /** At the end of the text, the segments read are all there is. */
  lemma MergeEnd(s: string, d: char, done: seq<string>)
    requires |done| >= 1
    ensures Merge(done, Segments(s[|s|..], d)) == Ok(done)
  {
    assert s[|s|..] == [];
    MergeLast(done, d);
  }

  /** A delimiter at `i` closes the last segment read and opens an empty one. */
  lemma MergeDelimiterAt(s: string, d: char, i: nat, done: seq<string>)
    requires i < |s| && s[i] == d && |done| >= 1
    ensures Merge(done, Segments(s[i..], d)) == Merge(done + [""], Segments(s[i + 1..], d))
  {
    MergeDelimiter(done, s[i..], d);
    assert s[i..][1..] == s[i + 1..];
  }

  /** A unit of length `n` at `i` is appended to the last segment read. */
  lemma MergeUnitAt(s: string, d: char, i: nat, n: nat, done: seq<string>)
    requires i < |s| && s[i] != d && UnitLength(s[i..], d) == Some(n) && |done| >= 1
    ensures i + n <= |s|
    ensures Merge(done, Segments(s[i..], d))
         == Merge(done[..|done| - 1] + [done[|done| - 1] + s[i..i + n]], Segments(s[i + n..], d))
  {
    var u := s[i..i + n];
    assert s[i..][..n] == u;
    assert s[i..] == u + s[i + n..];
    MergeUnit(done, u, s[i + n..], d);
  }

  /**
   * The unit the `AST.split` loop copies at position `i`: the character
   * itself, or, for a quote, everything through the closing quote.
   */
  method NextUnit(s: string, d: char, i: nat) returns (r: Result<string>)
    requires i < |s| && s[i] != d
    ensures r.Err? ==> r.error == UnexpectedEndOfQuotedString && UnitLength(s[i..], d).None?
    ensures r.Ok? ==> UnitLength(s[i..], d) == Some(|r.value|) && s[i..i + |r.value|] == r.value
  {
    if s[i] == '"' {
      var q := SplitQuoted(s, i + 1);
      assert s[i..][1..] == s[i + 1..];
      if q.Err? {
        return q.PropagateFailure();
      }
      ghost var k := IndexOf(s[i + 1..], '"').value;
      assert q.value.0 == s[i..i + k + 2] by {
        assert s[i..i + k + 2] == [s[i]] + s[i + 1..i + 1 + k + 1];
      }
      return Ok(q.value.0);
    }
    assert s[i..i + 1] == [s[i]];
    return Ok([s[i]]);
  }

  /** A quote that is never closed makes the whole text fail. */
  lemma MergeUnclosed(s: string, d: char, i: nat, done: seq<string>)
    requires i < |s| && s[i] != d && UnitLength(s[i..], d).None? && |done| >= 1
    ensures Merge(done, Segments(s[i..], d)) == Err(UnexpectedEndOfQuotedString)
  {
  }

  /**
   * `AST.split`: the cursor loop, appending to the last segment or starting
   * a new one.  The segments read so far, stitched to the segments of the
   * rest of the text, are always the segments of the whole text.
   */
  method Split(s: string, d: char) returns (r: Result<seq<string>>)
    ensures r == Segments(s, d)
  {
    var segments: seq<string> := [""];
    var i := 0;
    assert s[0..] == s;
    MergeFirst(Segments(s, d));
    while i < |s|
      invariant 0 <= i <= |s|
      invariant |segments| >= 1
      invariant Merge(segments, Segments(s[i..], d)) == Segments(s, d)
      decreases |s| - i
    {
      if s[i] == d {
        MergeDelimiterAt(s, d, i, segments);
        segments := segments + [""];
        i := i + 1;
      } else {
        var unit := NextUnit(s, d, i);
        if unit.Err? {
          MergeUnclosed(s, d, i, segments);
          return unit.PropagateFailure();
        }
        MergeUnitAt(s, d, i, |unit.value|, segments);
        var last := |segments| - 1;
        segments := segments[..last] + [segments[last] + unit.value];
        i := i + |unit.value|;
      }
    }
    MergeEnd(s, d, segments);
    return Ok(segments);
  }

  /** `AST.remove_quotes`: drops one leading and one trailing '"', only when both are there. */
  function RemoveQuotes(s: string): (r: string)
    ensures if |s| >= 1 && s[0] == '"' && s[|s| - 1] == '"'
            then (|s| == 1 && r == "") || (|s| >= 2 && s == "\"" + r + "\"")
            else r == s
  {
    if |s| >= 1 && s[0] == '"' && s[|s| - 1] == '"' then
      if |s| == 1 then "" else s[1..|s| - 1]
    else s
  }
}
