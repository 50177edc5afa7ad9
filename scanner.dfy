/**
 * `Command::OutputScanner` of lib/tl1/command.rb: cutting the records out
 * of a raw TL1 response.
 *
 * A response is a header, a status line `M <ctag> COMPLD`, then records,
 * each between double quotes, ended by ';'; a '>' announces that another
 * block with its own status line follows.  Inside a record `\"` opens an
 * embedded string that runs to the next `\"`, and both become a plain '"'.
 *
 * The functions below say where each step leaves the cursor and what text
 * it returns; the `StringCursor` and `OutputScanner` classes are the loops
 * of the Ruby code on a moving cursor, proved to agree with them.
 */
module Scanning {
  import opened Wrappers

  /** Ruby's `\s`: space, tab, line feed, vertical tab, form feed and carriage return. */
  predicate IsSpace(c: char)
  {
    c == ' ' || c == '\t' || c == '\n' || c == '\U{B}' || c == '\U{C}' || c == '\r'
  }

  /** Ruby's `\d`: an ASCII digit. */
  predicate IsDigit(c: char)
  {
    '0' <= c <= '9'
  }

  /** Where the run of `\s` characters starting at `i` ends. */
  function SpacesEnd(s: string, i: nat): (r: nat)
    requires i <= |s|
    ensures i <= r <= |s|
    ensures r == |s| || !IsSpace(s[r])
    decreases |s| - i
  {
    if i < |s| && IsSpace(s[i]) then SpacesEnd(s, i + 1) else i
  }

  /** Where the run of `\d` characters starting at `i` ends. */
  function DigitsEnd(s: string, i: nat): (r: nat)
    requires i <= |s|
    ensures i <= r <= |s|
    ensures r == |s| || !IsDigit(s[r])
    decreases |s| - i
  {
    if i < |s| && IsDigit(s[i]) then DigitsEnd(s, i + 1) else i
  }

  /** Every character `SpacesEnd` passes over is white space. */
  lemma {:induction false} SpacesSkipped(s: string, i: nat)
    requires i <= |s|
    ensures forall k {:trigger s[k]} :: i <= k < SpacesEnd(s, i) ==> IsSpace(s[k])
    decreases |s| - i
  {
    if i < |s| && IsSpace(s[i]) {
      SpacesSkipped(s, i + 1);
    }
  }

  /** Every character `DigitsEnd` passes over is a digit. */
  lemma {:induction false} DigitsSkipped(s: string, i: nat)
    requires i <= |s|
    ensures forall k {:trigger s[k]} :: i <= k < DigitsEnd(s, i) ==> IsDigit(s[k])
    decreases |s| - i
  {
    if i < |s| && IsDigit(s[i]) {
      DigitsSkipped(s, i + 1);
    }
  }

  /** "COMPLD" is written at `c`. */
  predicate Completed(s: string, c: nat)
  {
    && c + 6 <= |s|
    && s[c] == 'C' && s[c + 1] == 'O' && s[c + 2] == 'M' && s[c + 3] == 'P' && s[c + 4] == 'L' && s[c + 5] == 'D'
  }

  /**
   * Where a match of `M\s+\d+\s+COMPLD$` starting at `p` ends, if there is
   * one.  Each run is taken whole: a shorter run would leave a space where
   * a digit or 'C' must follow, or a digit where a space must, so the
   * regex has no other way to match.
   */
  function StatusLineAt(s: string, p: nat): (r: Option<nat>)
    requires p <= |s|
    ensures r.Some? ==> p < r.value <= |s|
  {
    if p < |s| && s[p] == 'M' then
      var a := SpacesEnd(s, p + 1);
      var b := DigitsEnd(s, a);
      var c := SpacesEnd(s, b);
      if a > p + 1 && b > a && c > b && Completed(s, c) && (c + 6 == |s| || s[c + 6] == '\n')
      then Some(c + 6)
      else None
    else None
  }

  /**
   * `^` at `p` for a search starting at `pos`: the scanner matches against
   * the rest of the text, so the start of the search counts as the start
   * of a line.
   */
  predicate LineStart(s: string, pos: nat, p: nat)
    requires pos <= p <= |s|
  {
    p == pos || s[p - 1] == '\n'
  }

  /** A status line starts at `p`, for a search from `pos`. */
  predicate StatusLineStarts(s: string, pos: nat, p: nat)
    requires pos <= p <= |s|
  {
    LineStart(s, pos, p) && StatusLineAt(s, p).Some?
  }

  /** The end of the first status line that starts at or after `p`, for a search from `pos`. */
  function FindStatusLine(s: string, pos: nat, p: nat): (r: Option<nat>)
    requires pos <= p <= |s|
    ensures r.Some? ==> p < r.value <= |s|
    decreases |s| - p
  {
    if StatusLineStarts(s, pos, p) then StatusLineAt(s, p)
    else if p == |s| then None
    else FindStatusLine(s, pos, p + 1)
  }

  /** `scan_begin`: the cursor after the next status line, or where it was when there is none. */
  function AfterStatusLine(s: string, pos: nat): (r: nat)
    requires pos <= |s|
    ensures pos <= r <= |s|
  {
    match FindStatusLine(s, pos, pos)
    case None => pos
    case Some(e) => e
  }

  /** The search fails exactly when no status line starts at or after `p`. */
  lemma {:induction false} FindStatusLineNone(s: string, pos: nat, p: nat)
    requires pos <= p <= |s|
    ensures FindStatusLine(s, pos, p).None? <==> forall q :: p <= q <= |s| ==> !StatusLineStarts(s, pos, q)
    decreases |s| - p
  {
    if !StatusLineStarts(s, pos, p) && p < |s| {
      FindStatusLineNone(s, pos, p + 1);
    }
  }

  /** When the search succeeds, it ends the first status line that starts at or after `p`. */
  lemma {:induction false} FindStatusLineFirst(s: string, pos: nat, p: nat)
    requires pos <= p <= |s|
    ensures FindStatusLine(s, pos, p).Some? ==>
            exists q :: && p <= q <= |s| && StatusLineStarts(s, pos, q)
                        && StatusLineAt(s, q) == FindStatusLine(s, pos, p)
                        && forall q' :: p <= q' < q ==> !StatusLineStarts(s, pos, q')
    decreases |s| - p
  {
    if !StatusLineStarts(s, pos, p) && p < |s| && FindStatusLine(s, pos, p).Some? {
      FindStatusLineFirst(s, pos, p + 1);
      var q :| && p + 1 <= q <= |s| && StatusLineStarts(s, pos, q)
               && StatusLineAt(s, q) == FindStatusLine(s, pos, p + 1)
               && forall q' :: p + 1 <= q' < q ==> !StatusLineStarts(s, pos, q');
      assert forall q' :: p <= q' < q ==> !StatusLineStarts(s, pos, q');
    }
  }

  /** A backslash pair appended, as both its characters, to the text read so far. */
  function Escaped(acc: string, s: string, i: nat): string
    requires i + 1 < |s|
  {
    acc + [s[i], s[i + 1]]
  }

  /**
   * `scan_record_quoted_string` from `i`, with `acc` read so far: the text
   * of an embedded string up to and including its closing `\"`, given as a
   * plain '"', and the cursor after it.
   */
  function EmbeddedBody(s: string, i: nat, acc: string): (r: Result<(string, nat)>)
    requires i <= |s|
    ensures r.Ok? ==> i < r.value.1 <= |s|
    decreases |s| - i
  {
    if i == |s| then Err(UnexpectedEndOfMessage)
    else if s[i] == '\\' then
      if i + 1 == |s| then Err(BackslashAtEnd)
      else if s[i + 1] == '"' then Ok((acc + "\"", i + 2))
      else EmbeddedBody(s, i + 2, Escaped(acc, s, i))
    else EmbeddedBody(s, i + 1, acc + [s[i]])
  }

  /**
   * `scan_record` from `i`, with `acc` read so far: the text of a record up
   * to its closing '"', which is dropped, and the cursor after it.
   */
  function RecordBody(s: string, i: nat, acc: string): (r: Result<(string, nat)>)
    requires i <= |s|
    ensures r.Ok? ==> i < r.value.1 <= |s|
    decreases |s| - i
  {
    if i == |s| then Err(UnexpectedEndOfMessage)
    else if s[i] == '\\' then
      if i + 1 == |s| then Err(BackslashAtEnd)
      else if s[i + 1] == '"' then
        match EmbeddedBody(s, i + 2, "")
        case Err(e) => Err(e)
        case Ok((q, j)) => RecordBody(s, j, acc + "\"" + q)
      else RecordBody(s, i + 2, Escaped(acc, s, i))
    else if s[i] == '"' then Ok((acc, i + 1))
    else RecordBody(s, i + 1, acc + [s[i]])
  }

  /**
   * `scan_next_record` from `i`: after white space, '"' reads a record,
   * '>' moves past the next status line and reads on, and ';', any other
   * character or the end of the text ends the list without a record.
   */
  function NextRecord(s: string, i: nat): (r: Result<Option<(string, nat)>>)
    requires i <= |s|
    ensures r.Ok? && r.value.Some? ==> i < r.value.value.1 <= |s|
    decreases |s| - i
  {
    var j := SpacesEnd(s, i);
    if j == |s| then Ok(None)
    else if s[j] == '>' then NextRecord(s, AfterStatusLine(s, j + 1))
    else if s[j] == ';' then Ok(None)
    else if s[j] == '"' then
      match RecordBody(s, j + 1, "")
      case Err(e) => Err(e)
      case Ok((text, k)) => Ok(Some((text, k)))
    else Ok(None)
  }

  /** The records from `i` on, after those in `acc`, until the list ends. */
  function RecordsFrom(s: string, i: nat, acc: seq<string>): (r: Result<seq<string>>)
    requires i <= |s|
    decreases |s| - i
  {
    match NextRecord(s, i)
    case Err(e) => Err(e)
    case Ok(None) => Ok(acc)
    case Ok(Some((text, k))) => RecordsFrom(s, k, acc + [text])
  }

  /** Collecting records only appends: the records already collected stay first, in order. */
  lemma {:induction false} RecordsFromExtends(s: string, i: nat, acc: seq<string>)
    requires i <= |s|
    ensures RecordsFrom(s, i, acc).Ok? ==> acc <= RecordsFrom(s, i, acc).value
    decreases |s| - i
  {
    match NextRecord(s, i)
    case Err(_) =>
    case Ok(None) =>
    case Ok(Some((text, k))) =>
      RecordsFromExtends(s, k, acc + [text]);
  }

  /** `OutputScanner#records`: the records of a response, in the order they appear. */
  function RecordList(message: string): (r: Result<seq<string>>)
  {
    RecordsFrom(message, AfterStatusLine(message, 0), [])
  }

  // ---------------------------------------------------------------------
  // The cursor and the scanner
  // ---------------------------------------------------------------------

  /** A text and a position in it that the scanning steps move forward. */
  class StringCursor {
    const text: string
    var pos: nat

    predicate Valid()
      reads this
    {
      pos <= |text|
    }

    /** A cursor at the start of `text`. */
    constructor (text: string)
      ensures this.text == text && pos == 0 && Valid()
    {
      this.text := text;
      pos := 0;
    }

    /** `eos?`: the cursor is at the end of the text. */
    function AtEnd(): (r: bool)
      reads this
      requires Valid()
      ensures r <==> pos == |text|
    {
      pos == |text|
    }

    /** `getch`: the character under the cursor, which it then steps over; nothing at the end. */
    method Getch() returns (c: Option<char>)
      requires Valid()
      modifies this
      ensures Valid()
      ensures old(pos) < |text| ==> c == Some(text[old(pos)]) && pos == old(pos) + 1
      ensures old(pos) == |text| ==> c == None && pos == old(pos)
    {
      if pos == |text| {
        return None;
      }
      c := Some(text[pos]);
      pos := pos + 1;
    }

    /** `skip(/\s*\/)`: steps over white space. */
    method SkipSpaces()
      requires Valid()
      modifies this
      ensures Valid() && pos == SpacesEnd(text, old(pos))
    {
      while pos < |text| && IsSpace(text[pos])
        invariant old(pos) <= pos <= |text|
        invariant SpacesEnd(text, old(pos)) == SpacesEnd(text, pos)
        decreases |text| - pos
      {
        pos := pos + 1;
      }
    }

    /** `skip_until(/^M\s+\d+\s+COMPLD$/)`: moves past the next status line, if there is one. */
    method SkipUntilStatusLine()
      requires Valid()
      modifies this
      ensures Valid() && pos == AfterStatusLine(text, old(pos))
    {
      var p := pos;
      while p < |text| && !StatusLineStarts(text, pos, p)
        invariant pos <= p <= |text|
        invariant FindStatusLine(text, pos, pos) == FindStatusLine(text, pos, p)
        decreases |text| - p
      {
        p := p + 1;
      }
      if StatusLineStarts(text, pos, p) {
        pos := StatusLineAt(text, p).value;
      }
    }
  }

  /** `Command::OutputScanner`: the records of one response message. */
  class OutputScanner {
    const message: string

    constructor (message: string)
      ensures this.message == message
    {
      this.message := message;
    }

    /** `records`: every record of the message, read block after block. */
    method Records() returns (r: Result<seq<string>>)
      ensures r == RecordList(message)
    {
      var scanner := new StringCursor(message);
      ScanBegin(scanner);
      var records: seq<string> := [];
      while true
        invariant scanner.Valid() && scanner.text == message
        invariant RecordList(message) == RecordsFrom(message, scanner.pos, records)
        decreases |message| - scanner.pos
      {
        var record := ScanNextRecord(scanner);
        if record.Err? {
          return Err(record.error);
        }
        if record.value.None? {
          return Ok(records);
        }
        records := records + [record.value.value];
      }
    }

    /** `scan_begin`: moves the cursor past the next status line, if there is one. */
    method ScanBegin(scanner: StringCursor)
      requires scanner.Valid()
      modifies scanner
      ensures scanner.Valid() && scanner.pos == AfterStatusLine(scanner.text, old(scanner.pos))
    {
      scanner.SkipUntilStatusLine();
    }

    /** `scan_next_record`: the next record, or nothing where the list ends. */
    method ScanNextRecord(scanner: StringCursor) returns (r: Result<Option<string>>)
      requires scanner.Valid()
      modifies scanner
      ensures scanner.Valid()
      ensures var spec := NextRecord(scanner.text, old(scanner.pos));
              && (r.Err? <==> spec.Err?)
              && (r.Err? ==> r.error == spec.error)
              && (r.Ok? ==> (r.value.Some? <==> spec.value.Some?))
              && (r.Ok? && r.value.Some? ==> r.value.value == spec.value.value.0 && scanner.pos == spec.value.value.1)
      decreases |scanner.text| - scanner.pos
    {
      scanner.SkipSpaces();
      var c := scanner.Getch();
      if c == Some('>') {
        ScanBegin(scanner);
        r := ScanNextRecord(scanner);
      } else if c == Some(';') {
        r := Ok(None);
      } else if c == Some('"') {
        var record := ScanRecord(scanner);
        if record.Err? {
          return Err(record.error);
        }
        r := Ok(Some(record.value));
      } else {
        r := Ok(None);
      }
    }

    /** `scan_record`: the text of a record whose opening '"' has been read. */
    method ScanRecord(scanner: StringCursor) returns (r: Result<string>)
      requires scanner.Valid()
      modifies scanner
      ensures scanner.Valid()
      ensures var spec := RecordBody(scanner.text, old(scanner.pos), "");
              && (r.Err? <==> spec.Err?)
              && (r.Err? ==> r.error == spec.error)
              && (r.Ok? ==> r.value == spec.value.0 && scanner.pos == spec.value.1)
    {
      var record := "";
      while true
        invariant scanner.Valid() && old(scanner.pos) <= scanner.pos
        invariant RecordBody(scanner.text, old(scanner.pos), "") == RecordBody(scanner.text, scanner.pos, record)
        decreases |scanner.text| - scanner.pos
      {
        if scanner.AtEnd() {
          return Err(UnexpectedEndOfMessage);
        }
        var c := scanner.Getch();
        if c == Some('\\') {
          var next := scanner.Getch();
          if next == Some('"') {
            var embedded := ScanRecordQuotedString(scanner);
            if embedded.Err? {
              return Err(embedded.error);
            }
            record := record + "\"" + embedded.value;
          } else if next.None? {
            return Err(BackslashAtEnd);
          } else {
            record := record + [c.value, next.value];
          }
        } else if c == Some('"') {
          return Ok(record);
        } else {
          record := record + [c.value];
        }
      }
    }

    /** `scan_record_quoted_string`: an embedded string whose opening `\"` has been read. */
    method ScanRecordQuotedString(scanner: StringCursor) returns (r: Result<string>)
      requires scanner.Valid()
      modifies scanner
      ensures scanner.Valid()
      ensures var spec := EmbeddedBody(scanner.text, old(scanner.pos), "");
              && (r.Err? <==> spec.Err?)
              && (r.Err? ==> r.error == spec.error)
              && (r.Ok? ==> r.value == spec.value.0 && scanner.pos == spec.value.1)
    {
      var record := "";
      while true
        invariant scanner.Valid() && old(scanner.pos) <= scanner.pos
        invariant EmbeddedBody(scanner.text, old(scanner.pos), "") == EmbeddedBody(scanner.text, scanner.pos, record)
        decreases |scanner.text| - scanner.pos
      {
        if scanner.AtEnd() {
          return Err(UnexpectedEndOfMessage);
        }
        var c := scanner.Getch();
        if c == Some('\\') {
          var next := scanner.Getch();
          if next == Some('"') {
            return Ok(record + "\"");
          } else if next.None? {
            return Err(BackslashAtEnd);
          }
          record := record + [c.value, next.value];
        } else {
          record := record + [c.value];
        }
      }
    }
  }
}
