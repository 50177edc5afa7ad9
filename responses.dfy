/**
 * What `Command::OutputScanner` reads out of a well-formed response.
 *
 * A device writes each record between double quotes, a plain '"' inside
 * it as part of an embedded string `\"...\"`, and may write other
 * backslash pairs.  A response is one or more blocks, each a header of
 * whole lines (possibly none), a status line `M\s+\d+\s+COMPLD` ending
 * its line, and records with any white space before each, with '>' between blocks and ';' after the
 * last.  The scanner gives back every record, unescaped, in the order it
 * was written.
 */
module Responses {
  import opened Wrappers
  import opened Scanning

  /** One piece of a record as a device writes it. */
  datatype Piece =
    | Char(c: char)          // a character other than '"' and '\'
    | Backslashed(c: char)   // '\' and a character other than '"', kept as both
    | Quoted(q: string)      // an embedded string, written `\"q\"`

  /**
   * The inside of an embedded string: plain characters (a bare '"'
   * among them) and backslash pairs other than the closing `\"`, each
   * pair kept as both characters.
   */
  predicate EmbeddedText(q: string)
    decreases |q|
  {
    if q == [] then true
    else if q[0] != '\\' then EmbeddedText(q[1..])
    else |q| >= 2 && q[1] != '"' && EmbeddedText(q[2..])
  }

  predicate ValidPiece(p: Piece)
  {
    match p
    case Char(c) => c != '"' && c != '\\'
    case Backslashed(c) => c != '"'
    case Quoted(q) => EmbeddedText(q)
  }

  predicate ValidPieces(ps: seq<Piece>)
  {
    forall i :: 0 <= i < |ps| ==> ValidPiece(ps[i])
  }

  /** How a piece is written in the response. */
  function EncodePiece(p: Piece): string
  {
    match p
    case Char(c) => [c]
    case Backslashed(c) => ['\\', c]
    case Quoted(q) => "\\\"" + q + "\\\""
  }

  /** What the piece stands for in the record text. */
  function PieceText(p: Piece): string
  {
    match p
    case Char(c) => [c]
    case Backslashed(c) => ['\\', c]
    case Quoted(q) => "\"" + q + "\""
  }

  /** How a record is written between its quotes. */
  function Encode(ps: seq<Piece>): string
  {
    if ps == [] then "" else EncodePiece(ps[0]) + Encode(ps[1..])
  }

  /** The text of a record. */
  function Text(ps: seq<Piece>): string
  {
    if ps == [] then "" else PieceText(ps[0]) + Text(ps[1..])
  }

  /** `t` is written in `s` at `i`. */
  predicate At(s: string, i: nat, t: string)
  {
    i + |t| <= |s| && forall k :: 0 <= k < |t| ==> s[i + k] == t[k]
  }

  /** What is written at `i` as `a + b` is `a` at `i` and `b` right after it. */
  lemma {:induction false} AtSplit(s: string, i: nat, t: string, a: string, b: string)
    requires At(s, i, t) && t == a + b
    ensures At(s, i, a) && At(s, i + |a|, b)
  {
    forall k | 0 <= k < |a| ensures s[i + k] == a[k] {
      assert t[k] == a[k];
    }
    forall k | 0 <= k < |b| ensures s[i + |a| + k] == b[k] {
      assert t[|a| + k] == b[k];
    }
  }

  /** A character of what is written at `i`. */
  lemma {:induction false} AtIndex(s: string, i: nat, t: string, k: nat)
    requires At(s, i, t) && k < |t|
    ensures s[i + k] == t[k]
  {
  }

  /** A piece written at `i`: a character, a backslash pair, or an escaped embedded string. */
  predicate PieceAt(s: string, i: nat, p: Piece)
  {
    && i + |EncodePiece(p)| <= |s|
    && match p
       case Char(c) => s[i] == c
       case Backslashed(c) => s[i] == '\\' && s[i + 1] == c
       case Quoted(_) => At(s, i, EncodePiece(p))
  }

  /** Pieces written one after the other from `i`. */
  predicate PiecesAt(s: string, i: nat, ps: seq<Piece>)
    decreases |ps|
  {
    ps == [] || (PieceAt(s, i, ps[0]) && PiecesAt(s, i + |EncodePiece(ps[0])|, ps[1..]))
  }

  /**
   * An embedded string is read to its closing `\"`: its characters and
   * backslash pairs are copied as they are, and the closing pair becomes a
   * plain '"'.
   */
  lemma {:induction false} EmbeddedRead(s: string, i: nat, acc: string, q: string)
    requires EmbeddedText(q)
    requires At(s, i, q + "\\\"")
    ensures EmbeddedBody(s, i, acc) == Ok((acc + q + "\"", i + |q| + 2))
    decreases |q|
  {
    var w := q + "\\\"";
    if q == [] {
      AtIndex(s, i, w, 0);
      AtIndex(s, i, w, 1);
      assert acc + q == acc;
    } else if q[0] != '\\' {
      AtIndex(s, i, w, 0);
      AtSplit(s, i, w, [q[0]], q[1..] + "\\\"");
      EmbeddedRead(s, i + 1, acc + [q[0]], q[1..]);
      assert acc + [q[0]] + q[1..] == acc + q;
    } else {
      AtIndex(s, i, w, 0);
      AtIndex(s, i, w, 1);
      AtSplit(s, i, w, q[..2], q[2..] + "\\\"");
      assert Escaped(acc, s, i) == acc + q[..2];
      EmbeddedRead(s, i + 2, acc + q[..2], q[2..]);
      assert acc + q[..2] + q[2..] == acc + q;
    }
  }

  /** A valid piece is read as its text. */
  lemma {:induction false} PieceRead(s: string, i: nat, acc: string, p: Piece)
    requires ValidPiece(p) && PieceAt(s, i, p)
    ensures RecordBody(s, i, acc) == RecordBody(s, i + |EncodePiece(p)|, acc + PieceText(p))
  {
    var e := EncodePiece(p);
    match p
    case Char(c) =>
    case Backslashed(c) =>
    case Quoted(q) =>
      AtIndex(s, i, e, 0);
      AtIndex(s, i, e, 1);
      AtSplit(s, i, e, "\\\"", q + "\\\"");
      EmbeddedRead(s, i + 2, "", q);
      assert "" + q + "\"" == q + "\"";
      assert acc + "\"" + (q + "\"") == acc + PieceText(p);
  }

  /** A valid piece is read as its text, and the scan goes on right after it. */
  lemma {:induction false} PieceStep(s: string, i: nat, acc: string, p: Piece, k: nat, next: string)
    requires ValidPiece(p) && PieceAt(s, i, p)
    requires k == i + |EncodePiece(p)| && next == acc + PieceText(p)
    ensures RecordBody(s, i, acc) == RecordBody(s, k, next)
  {
    PieceRead(s, i, acc, p);
  }

  /** The pieces after the first are valid too. */
  lemma {:induction false} ValidRest(ps: seq<Piece>)
    requires ps != [] && ValidPieces(ps)
    ensures ValidPiece(ps[0]) && ValidPieces(ps[1..])
  {
    forall j | 0 <= j < |ps[1..]| ensures ValidPiece(ps[1..][j]) {
      assert ps[1..][j] == ps[j + 1];
    }
  }

  /** The closing '"' ends the record. */
  lemma {:induction false} RecordClosed(s: string, i: nat, acc: string)
    requires i < |s| && s[i] == '"'
    ensures RecordBody(s, i, acc) == Ok((acc, i + 1))
  {
  }

  /** Valid pieces written at `i`: the first is valid and written at `i`, the others right after it. */
  lemma {:induction false} FirstPiece(s: string, i: nat, acc: string, ps: seq<Piece>, out: string)
    requires ps != [] && ValidPieces(ps) && PiecesAt(s, i, ps) && out == acc + Text(ps)
    ensures ValidPiece(ps[0]) && PieceAt(s, i, ps[0])
    ensures ValidPieces(ps[1..]) && PiecesAt(s, i + |EncodePiece(ps[0])|, ps[1..])
    ensures |Encode(ps)| == |EncodePiece(ps[0])| + |Encode(ps[1..])|
    ensures out == acc + PieceText(ps[0]) + Text(ps[1..])
  {
    ValidRest(ps);
    TextSplit(acc, ps);
  }

  /** The text of pieces after `acc` is the first piece's text, then the others'. */
  lemma {:induction false} TextSplit(acc: string, ps: seq<Piece>)
    requires ps != []
    ensures acc + Text(ps) == acc + PieceText(ps[0]) + Text(ps[1..])
  {
    assert Text(ps) == PieceText(ps[0]) + Text(ps[1..]);
  }

  /**
   * Valid pieces written at `i` are read as their text: the scan reaches
   * `j`, right after them, having read `out`.
   */
  lemma {:induction false} PiecesRead(s: string, i: nat, acc: string, ps: seq<Piece>, j: nat, out: string)
    requires ValidPieces(ps) && PiecesAt(s, i, ps) && j < |s|
    requires j == i + |Encode(ps)| && out == acc + Text(ps)
    ensures RecordBody(s, i, acc) == RecordBody(s, j, out)
    decreases |ps|
  {
    if ps == [] {
      assert j == i && out == acc + "" == acc;
    } else {
      var k := i + |EncodePiece(ps[0])|;
      var next := acc + PieceText(ps[0]);
      var rest := ps[1..];
      assert && ValidPieces(rest) && PiecesAt(s, k, rest) && j == k + |Encode(rest)| && out == next + Text(rest)
             && RecordBody(s, i, acc) == RecordBody(s, k, next) by {
        FirstPiece(s, i, acc, ps, out);
        PieceStep(s, i, acc, ps[0], k, next);
      }
      PiecesRead(s, k, next, rest, j, out);
    }
  }

  /** A record written from valid pieces and closed by '"' is read as its text. */
  lemma {:induction false} RecordRead(s: string, i: nat, acc: string, ps: seq<Piece>)
    requires ValidPieces(ps) && PiecesAt(s, i, ps)
    requires i + |Encode(ps)| < |s| && s[i + |Encode(ps)|] == '"'
    ensures RecordBody(s, i, acc) == Ok((acc + Text(ps), i + |Encode(ps)| + 1))
  {
    var j := i + |Encode(ps)|;
    var out := acc + Text(ps);
    PiecesRead(s, i, acc, ps, j, out);
    RecordClosed(s, j, out);
  }

  /** An unclosed record with no backslash and no quote runs into the end of the message. */
  lemma {:induction false} RecordUnclosed(s: string, i: nat, acc: string)
    requires i <= |s|
    requires forall k :: i <= k < |s| ==> s[k] != '"' && s[k] != '\\'
    ensures RecordBody(s, i, acc) == Err(UnexpectedEndOfMessage)
    decreases |s| - i
  {
    if i < |s| {
      RecordUnclosed(s, i + 1, acc + [s[i]]);
    }
  }

  // ---------------------------------------------------------------------
  // Whole responses
  // ---------------------------------------------------------------------

  /** Every character of `w` is white space. */
  predicate Spaces(w: string)
  {
    forall k :: 0 <= k < |w| ==> IsSpace(w[k])
  }

  /** Every character of `w` is a digit. */
  predicate Digits(w: string)
  {
    forall k :: 0 <= k < |w| ==> IsDigit(w[k])
  }

  /**
   * A status line as a device writes it: "M", a run of white space, the
   * digits of the tag, another run of white space, then "COMPLD".
   */
  datatype Status = Status(gap: string, tag: string, gap2: string)

  predicate ValidStatus(st: Status)
  {
    && |st.gap| >= 1 && Spaces(st.gap)
    && |st.tag| >= 1 && Digits(st.tag)
    && |st.gap2| >= 1 && Spaces(st.gap2)
  }

  /** The length of a status line. */
  function StatusLength(st: Status): nat
  {
    |st.gap| + |st.tag| + |st.gap2| + 7
  }

  /** The status line `st` written at `q`. */
  predicate StatusAt(s: string, q: nat, st: Status)
  {
    && q + StatusLength(st) <= |s| && s[q] == 'M'
    && At(s, q + 1, st.gap) && At(s, q + 1 + |st.gap|, st.tag) && At(s, q + 1 + |st.gap| + |st.tag|, st.gap2)
    && Completed(s, q + 1 + |st.gap| + |st.tag| + |st.gap2|)
  }

  /**
   * A record with the white space before it: a line break and an indent,
   * a single space, or nothing at all.
   */
  datatype Line = Line(indent: string, pieces: seq<Piece>)

  predicate ValidLine(l: Line)
  {
    Spaces(l.indent) && ValidPieces(l.pieces)
  }

  /** The length of a record line: the white space, then the quoted record. */
  function LineLength(l: Line): nat
  {
    |l.indent| + |Encode(l.pieces)| + 2
  }

  /** A record line written at `i`: its white space, then `"record"`. */
  predicate RecordLineAt(s: string, i: nat, l: Line)
  {
    && i + LineLength(l) <= |s| && At(s, i, l.indent) && s[i + |l.indent|] == '"'
    && PiecesAt(s, i + |l.indent| + 1, l.pieces) && s[i + |l.indent| + 1 + |Encode(l.pieces)|] == '"'
  }

  /**
   * One block: a header of whole lines (none at all when the status line
   * comes first), the status line, the record lines, and the white space
   * before the ';' or '>' that follows it.
   */
  datatype Block = Block(header: string, status: Status, records: seq<Line>, close: string)

  /** No line of the header can be taken for a status line. */
  predicate NoStatusLine(h: string)
  {
    && (|h| > 0 ==> h[0] != 'M')
    && forall l, k {:trigger h[l], h[k]} :: 0 <= l < |h| && 0 <= k < |h| && k == l + 1 ==> !(h[l] == '\n' && h[k] == 'M')
  }

  /** The header is empty or ends with a line break, so the status line starts a line. */
  predicate HeaderEnds(h: string)
  {
    |h| == 0 || h[|h| - 1] == '\n'
  }

  predicate ValidBlock(b: Block)
  {
    && NoStatusLine(b.header) && HeaderEnds(b.header) && ValidStatus(b.status) && Spaces(b.close)
    && forall j :: 0 <= j < |b.records| ==> ValidLine(b.records[j])
  }

  /** The total length of the record lines. */
  function LinesLength(rs: seq<Line>): nat
  {
    if rs == [] then 0 else LineLength(rs[0]) + LinesLength(rs[1..])
  }

  /** The record lines written one after the other from `i`. */
  predicate LinesAt(s: string, i: nat, rs: seq<Line>)
    decreases |rs|
  {
    rs == [] || (RecordLineAt(s, i, rs[0]) && LinesAt(s, i + LineLength(rs[0]), rs[1..]))
  }

  /** Where the record lines of a block written at `i` begin: after the header, the status line and "\n". */
  function LinesStart(i: nat, b: Block): nat
  {
    i + |b.header| + StatusLength(b.status) + 1
  }

  /** Where the record lines of a block written at `i` end. */
  function LinesEnd(i: nat, b: Block): nat
  {
    LinesStart(i, b) + LinesLength(b.records)
  }

  /** The header, the status line, "\n", the record lines and the closing white space, written from `i`. */
  predicate BlockAt(s: string, i: nat, b: Block)
  {
    && At(s, i, b.header) && LinesStart(i, b) <= |s|
    && StatusAt(s, i + |b.header|, b.status) && s[LinesStart(i, b) - 1] == '\n'
    && LinesAt(s, LinesStart(i, b), b.records) && At(s, LinesEnd(i, b), b.close)
  }

  /** Where the ';' or '>' after the block written at `i` goes. */
  function BlockEnd(i: nat, b: Block): nat
  {
    LinesEnd(i, b) + |b.close|
  }

  /**
   * Where block `j` of a response starts: the first at the start of the
   * message, each other one right after the '>' that ends the block before
   * it.
   */
  function BlockStart(bs: seq<Block>, j: nat): nat
    requires j <= |bs|
  {
    if j == 0 then 0 else BlockEnd(BlockStart(bs, j - 1), bs[j - 1]) + 1
  }

  /** Block `j` written at its start, then ';' if it is the last block and '>' if not. */
  predicate BlockLaidOut(s: string, bs: seq<Block>, j: nat)
    requires j < |bs|
  {
    && BlockAt(s, BlockStart(bs, j), bs[j])
    && BlockEnd(BlockStart(bs, j), bs[j]) < |s|
    && s[BlockEnd(BlockStart(bs, j), bs[j])] == (if j == |bs| - 1 then ';' else '>')
  }

  /** A response: one or more blocks, laid out one after the other from the start of the message. */
  predicate ResponseAt(s: string, bs: seq<Block>)
  {
    |bs| >= 1 && forall j :: 0 <= j < |bs| ==> BlockLaidOut(s, bs, j)
  }

  /** The texts of the records of a block. */
  function Texts(rs: seq<Line>): (r: seq<string>)
    ensures |r| == |rs|
  {
    if rs == [] then [] else [Text(rs[0].pieces)] + Texts(rs[1..])
  }

  /** The texts of the records of all blocks, block after block. */
  function AllTexts(bs: seq<Block>): seq<string>
  {
    if bs == [] then [] else Texts(bs[0].records) + AllTexts(bs[1..])
  }

  /** Every character of white space written at `i` is white space in the message. */
  lemma {:induction false} SpacesAt(s: string, i: nat, w: string)
    requires At(s, i, w) && Spaces(w)
    ensures forall k :: i <= k < i + |w| ==> IsSpace(s[k])
  {
    forall k | i <= k < i + |w| ensures IsSpace(s[k]) {
      AtIndex(s, i, w, k - i);
    }
  }

  /** Every character of digits written at `i` is a digit in the message. */
  lemma {:induction false} DigitsAt(s: string, i: nat, w: string)
    requires At(s, i, w) && Digits(w)
    ensures forall k :: i <= k < i + |w| ==> IsDigit(s[k])
  {
    forall k | i <= k < i + |w| ensures IsDigit(s[k]) {
      AtIndex(s, i, w, k - i);
    }
  }

  /** `\s*` from `i` stops at `j`, the first character that is not white space. */
  lemma {:induction false} SpacesOver(s: string, i: nat, j: nat)
    requires i <= j < |s| && !IsSpace(s[j]) && forall k :: i <= k < j ==> IsSpace(s[k])
    ensures SpacesEnd(s, i) == j
    decreases j - i
  {
    if i < j {
      SpacesOver(s, i + 1, j);
    }
  }

  /** `\d+` from `i` stops at `j`, the first character that is not a digit. */
  lemma {:induction false} DigitsOver(s: string, i: nat, j: nat)
    requires i <= j < |s| && !IsDigit(s[j]) && forall k :: i <= k < j ==> IsDigit(s[k])
    ensures DigitsEnd(s, i) == j
    decreases j - i
  {
    if i < j {
      DigitsOver(s, i + 1, j);
    }
  }

  /** Where a status line is written and its line ends, the regex matches and ends after "COMPLD". */
  lemma {:induction false} StatusLineRead(s: string, q: nat, st: Status)
    requires ValidStatus(st) && StatusAt(s, q, st)
    requires q + StatusLength(st) < |s| && s[q + StatusLength(st)] == '\n'
    ensures StatusLineAt(s, q) == Some(q + StatusLength(st))
  {
    var a := q + 1 + |st.gap|;
    var b := a + |st.tag|;
    var c := b + |st.gap2|;
    SpacesAt(s, q + 1, st.gap);
    DigitsAt(s, a, st.tag);
    SpacesAt(s, b, st.gap2);
    AtIndex(s, a, st.tag, 0);
    AtIndex(s, b, st.gap2, 0);
    SpacesOver(s, q + 1, a);
    DigitsOver(s, a, b);
    SpacesOver(s, b, c);
  }

  /** The search from `i` passes over a header with no status line. */
  lemma {:induction false} HeaderSkipped(s: string, i: nat, h: string, q: nat)
    requires NoStatusLine(h) && At(s, i, h) && i <= q <= i + |h|
    ensures FindStatusLine(s, i, q) == FindStatusLine(s, i, i + |h|)
    decreases i + |h| - q
  {
    if q < i + |h| {
      var k := q - i;
      assert s[q] == h[k];
      if LineStart(s, i, q) && k > 0 {
        assert s[q - 1] == h[k - 1];
      }
      assert !StatusLineStarts(s, i, q);
      HeaderSkipped(s, i, h, q + 1);
    }
  }

  /** `scan_begin` from the start of a block stops right after its status line, at the "\n" that ends it. */
  lemma {:induction false} BlockBegin(s: string, i: nat, b: Block)
    requires NoStatusLine(b.header) && HeaderEnds(b.header) && ValidStatus(b.status) && BlockAt(s, i, b)
    ensures AfterStatusLine(s, i) == LinesStart(i, b) - 1
  {
    var q := i + |b.header|;
    HeaderSkipped(s, i, b.header, i);
    StatusLineRead(s, q, b.status);
    if |b.header| > 0 {
      AtIndex(s, i, b.header, |b.header| - 1);
    }
    assert StatusLineStarts(s, i, q);
  }

  /** A record read at `i` joins the list, and the list goes on after it. */
  lemma {:induction false} RecordsStep(s: string, i: nat, acc: seq<string>, t: string, k: nat)
    requires i <= |s| && NextRecord(s, i) == Ok(Some((t, k)))
    ensures k <= |s| && RecordsFrom(s, i, acc) == RecordsFrom(s, k, acc + [t])
  {
  }

  /** Where no record follows, the list ends. */
  lemma {:induction false} RecordsEnd(s: string, i: nat, acc: seq<string>)
    requires i <= |s| && NextRecord(s, i) == Ok(None)
    ensures RecordsFrom(s, i, acc) == Ok(acc)
  {
  }

  /** A white-space character before the next record makes no difference to it. */
  lemma {:induction false} SpaceSkipped(s: string, e: nat)
    requires e < |s| && IsSpace(s[e])
    ensures NextRecord(s, e) == NextRecord(s, e + 1)
  {
    assert SpacesEnd(s, e) == SpacesEnd(s, e + 1);
  }

  /** One record line is read as the record's text. */
  lemma {:induction false} LineRead(s: string, i: nat, l: Line)
    requires ValidLine(l) && RecordLineAt(s, i, l)
    ensures NextRecord(s, i) == Ok(Some((Text(l.pieces), i + LineLength(l))))
  {
    var t := Text(l.pieces);
    var k := i + LineLength(l);
    var j := i + |l.indent|;
    assert RecordBody(s, j + 1, "") == Ok((t, k)) by {
      RecordReadFresh(s, j + 1, l.pieces, t, k);
    }
    assert SpacesEnd(s, i) == j by {
      SpacesAt(s, i, l.indent);
      SpacesOver(s, i, j);
    }
    QuoteRead(s, i, j, t, k);
  }

  /** A record read with nothing before it is read as its text alone. */
  lemma {:induction false} RecordReadFresh(s: string, i: nat, ps: seq<Piece>, t: string, k: nat)
    requires ValidPieces(ps) && PiecesAt(s, i, ps)
    requires i + |Encode(ps)| < |s| && s[i + |Encode(ps)|] == '"'
    requires t == Text(ps) && k == i + |Encode(ps)| + 1
    ensures RecordBody(s, i, "") == Ok((t, k))
  {
    RecordRead(s, i, "", ps);
    assert "" + t == t;
  }

  /** Where the spaces from `i` end at a '"', the scanner reads the record that follows. */
  lemma {:induction false} QuoteRead(s: string, i: nat, j: nat, t: string, k: nat)
    requires i <= j < |s| && SpacesEnd(s, i) == j && s[j] == '"' && RecordBody(s, j + 1, "") == Ok((t, k))
    ensures NextRecord(s, i) == Ok(Some((t, k)))
  {
  }

  /** The first record line is written at `i`, and the other lines right after it. */
  lemma {:induction false} LinesSplitFirst(s: string, i: nat, rs: seq<Line>)
    requires rs != [] && (forall j :: 0 <= j < |rs| ==> ValidLine(rs[j])) && LinesAt(s, i, rs)
    ensures ValidLine(rs[0]) && RecordLineAt(s, i, rs[0])
    ensures forall j :: 0 <= j < |rs[1..]| ==> ValidLine(rs[1..][j])
    ensures LinesAt(s, i + LineLength(rs[0]), rs[1..])
  {
    assert ValidLine(rs[0]);
    forall j | 0 <= j < |rs[1..]| ensures ValidLine(rs[1..][j]) {
      assert rs[1..][j] == rs[j + 1];
    }
  }

  /** From `i`, the scanner finds the records `rs` one after the other, each ending where the next line starts. */
  predicate LinesScanned(s: string, i: nat, rs: seq<Line>)
    decreases |rs|
  {
    i <= |s| && (rs == [] || (NextRecord(s, i) == Ok(Some((Text(rs[0].pieces), i + LineLength(rs[0]))))
                              && LinesScanned(s, i + LineLength(rs[0]), rs[1..])))
  }

  /** Record lines written from `i` are found one after the other. */
  lemma {:induction false} LinesFound(s: string, i: nat, rs: seq<Line>)
    requires forall j :: 0 <= j < |rs| ==> ValidLine(rs[j])
    requires LinesAt(s, i, rs) && i + LinesLength(rs) <= |s|
    ensures LinesScanned(s, i, rs)
    decreases |rs|
  {
    if rs != [] {
      LinesSplitFirst(s, i, rs);
      LinesFound(s, i + LineLength(rs[0]), rs[1..]);
      LineRead(s, i, rs[0]);
    }
  }

  /**
   * Records found one after the other from `i` join the list in order: it
   * goes on from `j`, right after them, with `out`, their texts after `acc`.
   */
  lemma {:induction false} LinesRead(s: string, i: nat, rs: seq<Line>, acc: seq<string>, j: nat, out: seq<string>)
    requires LinesScanned(s, i, rs) && j <= |s|
    requires j == i + LinesLength(rs) && out == acc + Texts(rs)
    ensures RecordsFrom(s, i, acc) == RecordsFrom(s, j, out)
    decreases |rs|
  {
    if rs == [] {
      assert acc + Texts(rs) == acc;
    } else {
      var k := i + LineLength(rs[0]);
      var next := acc + [Text(rs[0].pieces)];
      RecordsStep(s, i, acc, Text(rs[0].pieces), k);
      assert next + Texts(rs[1..]) == out;
      LinesRead(s, k, rs[1..], next, j, out);
    }
  }

  /** No record follows `f`: the list ends there. */
  predicate ListEnds(s: string, f: nat)
    requires f <= |s|
  {
    NextRecord(s, f) == Ok(None)
  }

  /** The next record after `f` is the first one after the status line that follows the '>' at `e`. */
  predicate ListContinues(s: string, f: nat, e: nat)
    requires e < |s|
  {
    f <= |s| && NextRecord(s, f) == NextRecord(s, AfterStatusLine(s, e + 1))
  }

  /** White space from `f`, then ';' at `e`, ends the response. */
  lemma {:induction false} ResponseEnd(s: string, f: nat, e: nat)
    requires f <= e < |s| && s[e] == ';' && forall k :: f <= k < e ==> IsSpace(s[k])
    ensures ListEnds(s, f)
  {
    SpacesOver(s, f, e);
  }

  /** White space from `f`, then '>' at `e`, goes on past the next status line. */
  lemma {:induction false} ResponseContinues(s: string, f: nat, e: nat)
    requires f <= e < |s| && s[e] == '>' && forall k :: f <= k < e ==> IsSpace(s[k])
    ensures ListContinues(s, f, e)
  {
    SpacesOver(s, f, e);
  }

  /** Two positions from which the next record is the same read the same records. */
  lemma {:induction false} SameNext(s: string, f: nat, g: nat, acc: seq<string>)
    requires f <= |s| && g <= |s| && NextRecord(s, f) == NextRecord(s, g)
    ensures RecordsFrom(s, f, acc) == RecordsFrom(s, g, acc)
  {
  }

  /** The records `rs` are found one after the other from `i`. */
  predicate RecordsScanned(s: string, i: nat, rs: seq<Line>)
  {
    LinesScanned(s, i, rs)
  }

  /** Record lines written from `i` are found one after the other. */
  lemma {:induction false} RecordsFound(s: string, i: nat, rs: seq<Line>)
    requires forall j :: 0 <= j < |rs| ==> ValidLine(rs[j])
    requires LinesAt(s, i, rs) && i + LinesLength(rs) <= |s|
    ensures RecordsScanned(s, i, rs)
  {
    LinesFound(s, i, rs);
  }

  /**
   * The records of a block written at `start`, as the scanner finds them:
   * its status line ends on the "\n" before them, and they follow one
   * after the other.
   */
  predicate RecordsScannedAt(s: string, start: nat, b: Block)
  {
    && BlockEnd(start, b) < |s|
    && AfterStatusLine(s, start) == LinesStart(start, b) - 1
    && s[LinesStart(start, b) - 1] == '\n'
    && RecordsScanned(s, LinesStart(start, b), b.records)
  }

  /** After records ending at `f`, with ';' or '>' at `e`, the list ends when `last`, and goes on to the next block otherwise. */
  predicate EndScannedAt(s: string, f: nat, e: nat, last: bool)
  {
    && f <= e < |s|
    && (last ==> ListEnds(s, f))
    && (!last ==> ListContinues(s, f, e))
  }

  /** The records of block `j` of a response, as the scanner finds them. */
  predicate BlockRecordsScanned(s: string, bs: seq<Block>, j: nat)
    requires j < |bs|
  {
    RecordsScannedAt(s, BlockStart(bs, j), bs[j])
  }

  /** What the scanner finds after the records of block `j` of a response. */
  predicate BlockEndScanned(s: string, bs: seq<Block>, j: nat)
    requires j < |bs|
  {
    EndScannedAt(s, LinesEnd(BlockStart(bs, j), bs[j]), BlockEnd(BlockStart(bs, j), bs[j]), j == |bs| - 1)
  }

  /** A block written at `start`, followed by ';' when `last` and by '>' otherwise, is found as it is written. */
  lemma {:induction false} BlockFoundAt(s: string, start: nat, b: Block, last: bool)
    requires ValidBlock(b) && BlockAt(s, start, b)
    requires BlockEnd(start, b) < |s| && s[BlockEnd(start, b)] == (if last then ';' else '>')
    ensures RecordsScannedAt(s, start, b)
    ensures EndScannedAt(s, LinesEnd(start, b), BlockEnd(start, b), last)
  {
    var p := LinesStart(start, b);
    var f := LinesEnd(start, b);
    var e := BlockEnd(start, b);
    assert RecordsScanned(s, p, b.records) by {
      assert LinesAt(s, p, b.records);
      RecordsFound(s, p, b.records);
    }
    assert AfterStatusLine(s, start) == p - 1 by {
      BlockBegin(s, start, b);
    }
    assert EndScannedAt(s, f, e, last) by {
      SpacesAt(s, f, b.close);
      if last {
        ResponseEnd(s, f, e);
      } else {
        ResponseContinues(s, f, e);
      }
    }
  }

  /** Block `j` of a response, laid out as it should be, is found as it is written. */
  lemma {:induction false} BlockFound(s: string, bs: seq<Block>, j: nat)
    requires j < |bs| && ValidBlock(bs[j]) && BlockLaidOut(s, bs, j)
    ensures BlockRecordsScanned(s, bs, j) && BlockEndScanned(s, bs, j)
  {
    BlockFoundAt(s, BlockStart(bs, j), bs[j], j == |bs| - 1);
  }

  /** The list read from `i`, after `acc`: a name for it that proofs can pass around unopened. */
  function Records(s: string, i: nat, acc: seq<string>): Result<seq<string>>
    requires i <= |s|
  {
    RecordsFrom(s, i, acc)
  }

  /** The records found from `p` join the list, which goes on from `f`, right after them. */
  lemma {:induction false} BlockRecordsRead(s: string, p: nat, rs: seq<Line>, acc: seq<string>, f: nat, next: seq<string>)
    requires RecordsScanned(s, p, rs) && f == p + LinesLength(rs) && f <= |s| && next == acc + Texts(rs)
    ensures Records(s, p, acc) == Records(s, f, next)
  {
    LinesRead(s, p, rs, acc, f, next);
  }

  /** The records of a block written at `start` are read, after `acc`, up to their end `f`. */
  lemma {:induction false} RecordsReadAt(s: string, start: nat, b: Block, acc: seq<string>, f: nat, next: seq<string>)
    requires RecordsScannedAt(s, start, b)
    requires f == LinesEnd(start, b) && next == acc + Texts(b.records)
    ensures f < |s| && Records(s, AfterStatusLine(s, start), acc) == Records(s, f, next)
  {
    var p := LinesStart(start, b);
    SpaceSkipped(s, p - 1);
    SameNext(s, p - 1, p, acc);
    BlockRecordsRead(s, p, b.records, acc, f, next);
  }

  /** After records ending at `f`, with ';' or '>' at `e`, the list ends, or reads on from the next block's records. */
  lemma {:induction false} EndReadAt(s: string, f: nat, e: nat, last: bool, next: seq<string>)
    requires EndScannedAt(s, f, e, last)
    ensures last ==> Records(s, f, next) == Ok(next)
    ensures !last ==> Records(s, f, next) == Records(s, AfterStatusLine(s, e + 1), next)
  {
    if last {
      RecordsEnd(s, f, next);
    } else {
      SameNext(s, f, AfterStatusLine(s, e + 1), next);
    }
  }

  /** The records of block `j`, written at `start`, are read, after `acc`, up to their end `f`. */
  lemma {:induction false} BlockRead(s: string, bs: seq<Block>, j: nat, start: nat, b: Block, acc: seq<string>, f: nat, next: seq<string>)
    requires j < |bs| && start == BlockStart(bs, j) && b == bs[j] && BlockRecordsScanned(s, bs, j)
    requires f == LinesEnd(start, b) && next == acc + Texts(b.records)
    ensures f < |s| && Records(s, AfterStatusLine(s, start), acc) == Records(s, f, next)
  {
    assert RecordsScannedAt(s, start, b);
    RecordsReadAt(s, start, b, acc, f, next);
  }

  /** After the records of block `j`, ending at `f`, the list ends, or reads on from the block after the '>' at `e`. */
  lemma {:induction false} BlockNext(s: string, bs: seq<Block>, j: nat, f: nat, e: nat, next: seq<string>)
    requires j < |bs| && BlockEndScanned(s, bs, j)
    requires f == LinesEnd(BlockStart(bs, j), bs[j]) && e == BlockEnd(BlockStart(bs, j), bs[j])
    ensures f <= e < |s|
    ensures j == |bs| - 1 ==> Records(s, f, next) == Ok(next)
    ensures j < |bs| - 1 ==> Records(s, f, next) == Records(s, AfterStatusLine(s, e + 1), next)
  {
    assert EndScannedAt(s, f, e, j == |bs| - 1);
    EndReadAt(s, f, e, j == |bs| - 1, next);
  }

  /** The texts of the blocks from `j` on, after `acc`, are those of block `j`, then those of the others. */
  lemma {:induction false} TextsFrom(bs: seq<Block>, j: nat, acc: seq<string>, next: seq<string>, out: seq<string>)
    requires j < |bs| && next == acc + Texts(bs[j].records) && out == acc + AllTexts(bs[j..])
    ensures j == |bs| - 1 ==> out == next
    ensures j < |bs| - 1 ==> out == next + AllTexts(bs[j + 1..])
  {
    assert bs[j..][1..] == bs[j + 1..];
    if j == |bs| - 1 {
      assert bs[j + 1..] == [];
    }
  }

  /**
   * The records of block `j`, written at `start` and followed by ';' or '>'
   * at `e`, are read after `acc`; then the list ends, or reads on from the
   * next block.
   */
  lemma {:induction false} BlockStep(s: string, bs: seq<Block>, j: nat, start: nat, e: nat, acc: seq<string>, next: seq<string>)
    requires j < |bs| && start == BlockStart(bs, j) && e == BlockEnd(start, bs[j])
    requires ValidBlock(bs[j]) && BlockLaidOut(s, bs, j)
    requires next == acc + Texts(bs[j].records)
    ensures e < |s|
    ensures j == |bs| - 1 ==> Records(s, AfterStatusLine(s, start), acc) == Ok(next)
    ensures j < |bs| - 1 ==> Records(s, AfterStatusLine(s, start), acc) == Records(s, AfterStatusLine(s, e + 1), next)
  {
    var f := LinesEnd(start, bs[j]);
    BlockFound(s, bs, j);
    BlockRead(s, bs, j, start, bs[j], acc, f, next);
    BlockNext(s, bs, j, f, e, next);
  }

  /** Where the records of block `j` begin: right after its status line. */
  function RecordsStart(s: string, bs: seq<Block>, j: nat): nat
  {
    if j < |bs| && BlockStart(bs, j) <= |s| then AfterStatusLine(s, BlockStart(bs, j)) else 0
  }

  /** From `a`, the list reads `t`, then goes on from `b`. */
  ghost predicate Linked(s: string, a: nat, t: seq<string>, b: nat)
  {
    a <= |s| && b <= |s| && forall acc :: Records(s, a, acc) == Records(s, b, acc + t)
  }

  /** From `a`, the list reads `t`, then ends. */
  ghost predicate Closes(s: string, a: nat, t: seq<string>)
  {
    a <= |s| && forall acc :: Records(s, a, acc) == Ok(acc + t)
  }

  /** Block `j`, laid out at `start` and ended at `e`, reads its records, then goes on to the next block or ends the list. */
  lemma {:induction false} StepLinked(s: string, bs: seq<Block>, j: nat, start: nat, e: nat)
    requires j < |bs| && start == BlockStart(bs, j) && e == BlockEnd(start, bs[j])
    requires ValidBlock(bs[j]) && BlockLaidOut(s, bs, j)
    ensures e < |s|
    ensures j < |bs| - 1 ==> Linked(s, AfterStatusLine(s, start), Texts(bs[j].records), AfterStatusLine(s, e + 1))
    ensures j == |bs| - 1 ==> Closes(s, AfterStatusLine(s, start), Texts(bs[j].records))
  {
    var t := Texts(bs[j].records);
    if j < |bs| - 1 {
      forall acc ensures Records(s, AfterStatusLine(s, start), acc) == Records(s, AfterStatusLine(s, e + 1), acc + t) {
        BlockStep(s, bs, j, start, e, acc, acc + t);
      }
    } else {
      forall acc ensures Records(s, AfterStatusLine(s, start), acc) == Ok(acc + t) {
        BlockStep(s, bs, j, start, e, acc, acc + t);
      }
    }
  }

  /** A block laid out before another reads its records, then goes on to those of the next block. */
  lemma {:induction false} BlockLinked(s: string, bs: seq<Block>, j: nat)
    requires j < |bs| - 1 && ValidBlock(bs[j]) && BlockLaidOut(s, bs, j)
    ensures Linked(s, RecordsStart(s, bs, j), Texts(bs[j].records), RecordsStart(s, bs, j + 1))
  {
    var start := BlockStart(bs, j);
    var e := BlockEnd(start, bs[j]);
    StepLinked(s, bs, j, start, e);
    assert BlockStart(bs, j + 1) == e + 1;
  }

  /** The last block laid out reads its records, then the list ends. */
  lemma {:induction false} BlockCloses(s: string, bs: seq<Block>)
    requires |bs| >= 1 && ValidBlock(bs[|bs| - 1]) && BlockLaidOut(s, bs, |bs| - 1)
    ensures Closes(s, RecordsStart(s, bs, |bs| - 1), Texts(bs[|bs| - 1].records))
  {
    var start := BlockStart(bs, |bs| - 1);
    StepLinked(s, bs, |bs| - 1, start, BlockEnd(start, bs[|bs| - 1]));
  }

  /**
   * Blocks whose records begin at `pos(0)`, `pos(1)`, ..., each linked to
   * the next and the last closing the list: from block `j` on, the list is
   * `out`, their texts after `acc`.
   */
  lemma {:induction false} ChainRead(s: string, bs: seq<Block>, pos: nat -> nat, j: nat, acc: seq<string>, out: seq<string>)
    requires j < |bs|
    requires forall k :: 0 <= k < |bs| - 1 ==> Linked(s, pos(k), Texts(bs[k].records), pos(k + 1))
    requires Closes(s, pos(|bs| - 1), Texts(bs[|bs| - 1].records))
    requires out == acc + AllTexts(bs[j..])
    ensures pos(j) <= |s| && Records(s, pos(j), acc) == Ok(out)
    decreases |bs| - j
  {
    var next := acc + Texts(bs[j].records);
    TextsFrom(bs, j, acc, next, out);
    if j < |bs| - 1 {
      assert Linked(s, pos(j), Texts(bs[j].records), pos(j + 1));
      ChainRead(s, bs, pos, j + 1, next, out);
    }
  }

  /**
   * The scanner gives back every record of a well-formed response,
   * unescaped and in the order written, across all its blocks.
   */
  lemma {:induction false} ResponseRecords(s: string, bs: seq<Block>)
    requires (forall j :: 0 <= j < |bs| ==> ValidBlock(bs[j])) && ResponseAt(s, bs)
    ensures RecordList(s) == Ok(AllTexts(bs))
  {
    var pos := (k: nat) => RecordsStart(s, bs, k);
    forall k | 0 <= k < |bs| - 1 ensures Linked(s, pos(k), Texts(bs[k].records), pos(k + 1)) {
      BlockLinked(s, bs, k);
    }
    BlockCloses(s, bs);
    assert bs[0..] == bs;
    ChainRead(s, bs, pos, 0, [], AllTexts(bs));
    assert pos(0) == AfterStatusLine(s, 0);
    assert [] + AllTexts(bs) == AllTexts(bs);
  }
}
