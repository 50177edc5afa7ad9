/**
 * The escaped record of an alarm listing: a record whose embedded quoted
 * string is written with backslash-escaped quotes reads back with plain
 * quotes.  The record is built from the pieces of `Responses` and read by
 * `Responses.RecordRead`.
 */
module Escapes {
  import opened Wrappers
  import opened Scanning
  import opened Responses

  /** Text with neither a quote nor a backslash. */
  predicate Unescaped(t: string)
  {
    forall k :: 0 <= k < |t| ==> t[k] != '"' && t[k] != '\\'
  }

  /** Plain text as pieces, one character each, ahead of `rest`. */
  function CharsThen(t: string, rest: seq<Piece>): (r: seq<Piece>)
    ensures |r| == |t| + |rest|
  {
    if t == [] then rest else [Char(t[0])] + CharsThen(t[1..], rest)
  }

  /** A piece put in front is written first. */
  lemma ConsEncode(p: Piece, ps: seq<Piece>)
    ensures Encode([p] + ps) == EncodePiece(p) + Encode(ps)
  {
    assert ([p] + ps)[1..] == ps;
  }

  /** A piece put in front is read first. */
  lemma ConsText(p: Piece, ps: seq<Piece>)
    ensures Text([p] + ps) == PieceText(p) + Text(ps)
  {
    assert ([p] + ps)[1..] == ps;
  }

  /** A valid piece written at `i`, with valid pieces right after it. */
  lemma ConsAt(s: string, i: nat, p: Piece, ps: seq<Piece>)
    requires ValidPiece(p) && PieceAt(s, i, p)
    requires ValidPieces(ps) && PiecesAt(s, i + |EncodePiece(p)|, ps)
    ensures ValidPieces([p] + ps) && PiecesAt(s, i, [p] + ps)
  {
    var r := [p] + ps;
    assert r[0] == p && r[1..] == ps;
    forall k | 0 <= k < |r| ensures ValidPiece(r[k]) {
      if k > 0 {
        assert r[k] == ps[k - 1];
      }
    }
  }

  /** The first character of text, then the rest of it. */
  lemma FrontJoin(t: string, e: string)
    requires t != []
    ensures [t[0]] + (t[1..] + e) == t + e
  {
    assert t == [t[0]] + t[1..];
  }

  /** Plain text as pieces is written as itself. */
  lemma {:induction false} CharsThenEncode(t: string, rest: seq<Piece>)
    ensures Encode(CharsThen(t, rest)) == t + Encode(rest)
    decreases |t|
  {
    if t == [] {
      assert t + Encode(rest) == Encode(rest);
    } else {
      ConsEncode(Char(t[0]), CharsThen(t[1..], rest));
      CharsThenEncode(t[1..], rest);
      FrontJoin(t, Encode(rest));
    }
  }

  /** Plain text as pieces stands for itself. */
  lemma {:induction false} CharsThenText(t: string, rest: seq<Piece>)
    ensures Text(CharsThen(t, rest)) == t + Text(rest)
    decreases |t|
  {
    if t == [] {
      assert t + Text(rest) == Text(rest);
    } else {
      ConsText(Char(t[0]), CharsThen(t[1..], rest));
      CharsThenText(t[1..], rest);
      FrontJoin(t, Text(rest));
    }
  }

  /** Text with no quote and no backslash, followed by valid pieces, gives valid pieces written where it is. */
  lemma {:induction false} CharsThenAt(s: string, i: nat, t: string, rest: seq<Piece>)
    requires Unescaped(t) && At(s, i, t)
    requires ValidPieces(rest) && PiecesAt(s, i + |t|, rest)
    ensures ValidPieces(CharsThen(t, rest)) && PiecesAt(s, i, CharsThen(t, rest))
    decreases |t|
  {
    if t != [] {
      AtIndex(s, i, t, 0);
      AtSplit(s, i, t, [t[0]], t[1..]);
      CharsThenAt(s, i + 1, t[1..], rest);
      ConsAt(s, i, Char(t[0]), CharsThen(t[1..], rest));
    }
  }

  /** The pieces of a record `a\\"q\\"b`: the characters of `a`, the embedded string, the characters of `b`. */
  function EscapedPieces(a: string, q: string, b: string): seq<Piece>
  {
    CharsThen(a, [Quoted(q)] + CharsThen(b, []))
  }

  /** They are written as `a\\"q\\"b`. */
  lemma EscapedEncode(a: string, q: string, b: string)
    ensures Encode(EscapedPieces(a, q, b)) == a + ("\\\"" + q + "\\\"") + b
  {
    var tail := CharsThen(b, []);
    CharsThenEncode(b, []);
    ConsEncode(Quoted(q), tail);
    CharsThenEncode(a, [Quoted(q)] + tail);
    assert b + Encode([]) == b;
  }

  /** They stand for `a"q"b`. */
  lemma EscapedText(a: string, q: string, b: string)
    ensures Text(EscapedPieces(a, q, b)) == a + ("\"" + q + "\"") + b
  {
    var tail := CharsThen(b, []);
    CharsThenText(b, []);
    ConsText(Quoted(q), tail);
    CharsThenText(a, [Quoted(q)] + tail);
    assert b + Text([]) == b;
  }

  /** An embedded string written at `j`, with valid pieces right after it. */
  lemma QuotedThen(s: string, j: nat, q: string, rest: seq<Piece>)
    requires EmbeddedText(q) && At(s, j, "\\\"" + q + "\\\"")
    requires ValidPieces(rest) && PiecesAt(s, j + |q| + 4, rest)
    ensures ValidPieces([Quoted(q)] + rest) && PiecesAt(s, j, [Quoted(q)] + rest)
  {
    assert ValidPiece(Quoted(q)) && PieceAt(s, j, Quoted(q));
    ConsAt(s, j, Quoted(q), rest);
  }

  /** They are valid and written where `a`, `\\"q\\"` and `b` are written one after the other. */
  lemma EscapedAt(s: string, i: nat, a: string, q: string, b: string)
    requires Unescaped(a) && EmbeddedText(q) && Unescaped(b)
    requires At(s, i, a) && At(s, i + |a|, "\\\"" + q + "\\\"") && At(s, i + |a| + |q| + 4, b)
    ensures ValidPieces(EscapedPieces(a, q, b)) && PiecesAt(s, i, EscapedPieces(a, q, b))
  {
    var tail := CharsThen(b, []);
    var mid := [Quoted(q)] + tail;
    assert ValidPieces(tail) && PiecesAt(s, i + |a| + |q| + 4, tail) by {
      assert ValidPieces([]) && PiecesAt(s, i + |a| + |q| + 4 + |b|, []);
      CharsThenAt(s, i + |a| + |q| + 4, b, []);
    }
    QuotedThen(s, i + |a|, q, tail);
    CharsThenAt(s, i, a, mid);
  }

  /** `a`, then `\\"q\\"`, then `b` and a closing quote, each at its place, read as `a"q"b`. */
  lemma PartsRead(s: string, i: nat, a: string, q: string, b: string)
    requires Unescaped(a) && EmbeddedText(q) && Unescaped(b)
    requires At(s, i, a) && At(s, i + |a|, "\\\"" + q + "\\\"") && At(s, i + |a| + |q| + 4, b)
    requires i + |a| + |q| + 4 + |b| < |s| && s[i + |a| + |q| + 4 + |b|] == '"'
    ensures RecordBody(s, i, "") == Ok((a + ("\"" + q + "\"") + b, i + |a| + |q| + |b| + 5))
  {
    var ps := EscapedPieces(a, q, b);
    EscapedAt(s, i, a, q, b);
    assert |Encode(ps)| == |a| + |q| + |b| + 4 by {
      EscapedEncode(a, q, b);
    }
    RecordRead(s, i, "", ps);
    assert "" + Text(ps) == a + ("\"" + q + "\"") + b by {
      EscapedText(a, q, b);
    }
  }

  /**
   * A record `a\\"q\\"b"`, its embedded quotes escaped, reads as `a"q"b`:
   * each escaped quote is kept as a plain quote, backslash pairs inside
   * the embedded string are kept as they are, and the record ends at the
   * first unescaped quote.
   */
  lemma EscapedRecord(s: string, i: nat, a: string, q: string, b: string)
    requires Unescaped(a) && EmbeddedText(q) && Unescaped(b)
    requires At(s, i, a + ("\\\"" + q + "\\\"") + b + "\"")
    ensures RecordBody(s, i, "") == Ok((a + ("\"" + q + "\"") + b, i + |a| + |q| + |b| + 5))
  {
    var quoted := "\\\"" + q + "\\\"";
    AtSplit(s, i, a + quoted + b + "\"", a + quoted + b, "\"");
    AtSplit(s, i, a + quoted + b, a + quoted, b);
    AtSplit(s, i, a + quoted, a, quoted);
    AtIndex(s, i + |a + quoted + b|, "\"", 0);
    PartsRead(s, i, a, q, b);
  }
}
