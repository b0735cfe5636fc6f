/**
 * The terminal of src/terminal.rs: the output buffer, the key decoder over the
 * pending-byte stack, and the parser of the cursor position report that the
 * window-size fallback reads back from the terminal.
 *
 * Standard input is the sequence `input` of reads with the read position
 * `consumed` (see module Keys); standard output is the sequence `output` of
 * everything written so far.
 */
module Terminals {
  import opened Bytes
  import opened Keys

  // ---------------------------------------------------------------------------
  // Decimal numbers as Rust's usize::from_str reads them
  // ---------------------------------------------------------------------------

  /** usize is taken to be 64 bits wide: parsing fails at 2^64 and above. */
  const USIZE_LIMIT: nat := 0x1_0000_0000_0000_0000

  predicate IsDigit(b: byte) { B('0') <= b <= B('9') }

  predicate AllDigits(s: seq<byte>) { forall i :: 0 <= i < |s| ==> IsDigit(s[i]) }

  /** The value of a string of decimal digits, most significant first. */
  function DigitsValue(s: seq<byte>): nat
    requires AllDigits(s)
  {
    if s == [] then 0
    else DigitsValue(s[..|s| - 1]) * 10 + (s[|s| - 1] - B('0')) as int
  }

  /**
   * usize::from_str: one optional leading '+', then at least one digit and
   * nothing else; values of 2^64 and above overflow. Anything else is an error.
   */
  function ParseUsize(s: seq<byte>): (r: Option<nat>)
    ensures r.Some? ==> r.value < USIZE_LIMIT
  {
    if s == [] then None
    else
      var digits := if s[0] == B('+') then s[1..] else s;
      if digits == [] || !AllDigits(digits) then None
      else if DigitsValue(digits) >= USIZE_LIMIT then None
      else Some(DigitsValue(digits))
  }

  /** The shortest decimal spelling of `n`, as a terminal writes the numbers of a report. */
  function ShowDecimal(n: nat): (r: seq<byte>)
    ensures |r| >= 1 && AllDigits(r)
  {
    var d := (n % 10) as byte + B('0');
    if n < 10 then [d] else ShowDecimal(n / 10) + [d]
  }

  lemma {:induction false} ShowDecimalValue(n: nat)
    ensures DigitsValue(ShowDecimal(n)) == n
  {
    var s := ShowDecimal(n);
    assert s[..|s| - 1] == if n < 10 then [] else ShowDecimal(n / 10);
    if n >= 10 {
      ShowDecimalValue(n / 10);
    }
  }

  /** Every number below 2^64 spelled in decimal parses back to itself. */
  lemma ParseShowDecimal(n: nat)
    requires n < USIZE_LIMIT
    ensures ParseUsize(ShowDecimal(n)) == Some(n)
  {
    ShowDecimalValue(n);
  }

  /** Parsing rejects the empty string, a lone '+', a '-' sign and 2^64. */
  lemma ParseUsizeEdges()
    ensures ParseUsize([]) == None
    ensures ParseUsize([B('+')]) == None
    ensures ParseUsize([B('-'), B('1')]) == None
    ensures ParseUsize([B('+'), B('7')]) == Some(7)
    ensures ParseUsize(ShowDecimal(USIZE_LIMIT)) == None
  {
    ShowDecimalValue(USIZE_LIMIT);
    var s := [B('+'), B('7')];
    assert s[1..] == [B('7')];
    assert [B('7')][..0] == [];
  }

  // ---------------------------------------------------------------------------
  // The cursor position report (ECMA-48 section 8.3.14, CPR)
  // ---------------------------------------------------------------------------

  /** The device status report request (ECMA-48 section 8.3.35, DSR) and a line break. */
  const DSR_REQUEST: seq<byte> := [ESC, B('['), B('6'), B('n'), CR, NL]

  /**
   * The reply bytes: everything read up to an 'R', which is consumed and
   * dropped, or up to a read that returns nothing (a timeout or the end of
   * input), which ends the byte stream. Also the position after the reads.
   */
  function ReportBytes(input: seq<Option<byte>>, pos: nat): (r: (seq<byte>, nat))
    requires pos <= |input|
    ensures pos <= r.1 <= |input| && B('R') !in r.0
    ensures pos + |r.0| <= |input| && r.1 == Min(pos + |r.0| + 1, |input|)
    ensures forall i :: 0 <= i < |r.0| ==> input[pos + i] == Some(r.0[i])
    ensures pos + |r.0| < |input| ==> input[pos + |r.0|] == None || input[pos + |r.0|] == Some(B('R'))
    decreases |input| - pos
  {
    if pos == |input| then ([], pos)
    else if input[pos] == None || input[pos] == Some(B('R')) then ([], pos + 1)
    else
      var rest := ReportBytes(input, pos + 1);
      ([input[pos].value] + rest.0, rest.1)
  }

  /** The numbers among the pieces, in order; pieces that do not parse are skipped. */
  function Numbers(pieces: seq<seq<byte>>): (r: seq<nat>)
    ensures |r| <= |pieces|
  {
    if pieces == [] then []
    else
      var n := ParseUsize(pieces[0]);
      (if n.Some? then [n.value] else []) + Numbers(pieces[1..])
  }

  /**
   * The (row, column) of a report: the first two bytes are dropped, the rest is
   * split on ';', and exactly two of the pieces must parse as numbers.
   */
  function ParseCursorReport(reply: seq<byte>): (r: Result<(nat, nat)>)
    requires |reply| >= 2
  {
    var dims := Numbers(SplitOn(reply[2..], B(';')));
    if |dims| != 2 then Err("Can't get window size") else Ok((dims[0], dims[1]))
  }

  /** The report a terminal sends for the cursor at (row, col), without its final 'R'. */
  function ReportBody(row: nat, col: nat): seq<byte>
  {
    [ESC, B('[')] + ShowDecimal(row) + [B(';')] + ShowDecimal(col)
  }

  lemma NoSemicolonInDecimal(n: nat)
    ensures B(';') !in ShowDecimal(n) && B('R') !in ShowDecimal(n)
  {
    var s := ShowDecimal(n);
    assert forall i :: 0 <= i < |s| ==> IsDigit(s[i]);
  }

  /** Every report of a position below 2^64 parses back to that position. */
  lemma ParseReportBody(row: nat, col: nat)
    requires row < USIZE_LIMIT && col < USIZE_LIMIT
    ensures ParseCursorReport(ReportBody(row, col)) == Ok((row, col))
  {
    var a, b := ShowDecimal(row), ShowDecimal(col);
    NoSemicolonInDecimal(row);
    NoSemicolonInDecimal(col);
    assert ReportBody(row, col)[2..] == a + [B(';')] + b;
    SplitOnFirst(a, B(';'), b);
    SplitOnNone(b, B(';'));
    NumbersOfDecimals([a, b], [row, col]);
  }

  /** The reply read back: a full report, 'R' included, yields its body and consumes it. */
  lemma {:induction false} ReportBytesReadsBody(body: seq<byte>, input: seq<Option<byte>>, pos: nat)
    requires B('R') !in body
    requires pos + |body| < |input| && input[pos + |body|] == Some(B('R'))
    requires forall i :: 0 <= i < |body| ==> input[pos + i] == Some(body[i])
    ensures ReportBytes(input, pos) == (body, pos + |body| + 1)
    decreases |body|
  {
    if body != [] {
      ReportBytesReadsBody(body[1..], input, pos + 1);
      assert [body[0]] + body[1..] == body;
    }
  }

  /** The report for row 24, column 80 parses to (24, 80). */
  lemma ParseCursorReportExample()
    ensures ParseCursorReport([ESC, B('['), B('2'), B('4'), B(';'), B('8'), B('0')]) == Ok((24, 80))
  {
    ParseReportBody(24, 80);
    assert ShowDecimal(24) == [B('2'), B('4')] && ShowDecimal(80) == [B('8'), B('0')];
    assert ReportBody(24, 80) == [ESC, B('['), B('2'), B('4'), B(';'), B('8'), B('0')];
  }

  /** Three numbers are one too many, whatever the first two bytes are. */
  lemma ParseCursorReportThreeNumbers()
    ensures ParseCursorReport([B('x'), B('y'), B('1'), B(';'), B('2'), B(';'), B('3')]).Err?
  {
    var reply := [B('x'), B('y'), B('1'), B(';'), B('2'), B(';'), B('3')];
    assert reply[2..] == [B('1'), B(';'), B('2'), B(';'), B('3')];
    SplitThreeNumbers();
    NumbersOfDecimals([[B('1')], [B('2')], [B('3')]], [1, 2, 3]);
  }

  lemma SplitThreeNumbers()
    ensures SplitOn([B('1'), B(';'), B('2'), B(';'), B('3')], B(';')) == [[B('1')], [B('2')], [B('3')]]
  {
    SplitOnNone([B('3')], B(';'));
    SplitOnFirst([B('2')], B(';'), [B('3')]);
    assert [B('2')] + [B(';')] + [B('3')] == [B('2'), B(';'), B('3')];
    SplitOnFirst([B('1')], B(';'), [B('2'), B(';'), B('3')]);
    assert [B('1')] + [B(';')] + [B('2'), B(';'), B('3')] == [B('1'), B(';'), B('2'), B(';'), B('3')];
  }

  /** Pieces that are not numbers, empty ones included, are skipped. */
  lemma ParseCursorReportSkipsPieces()
    ensures ParseCursorReport([ESC, B('['), B('a'), B(';'), B('5'), B(';'), B(';'), B('9')]) == Ok((5, 9))
  {
    var reply := [ESC, B('['), B('a'), B(';'), B('5'), B(';'), B(';'), B('9')];
    assert reply[2..] == [B('a'), B(';'), B('5'), B(';'), B(';'), B('9')];
    SplitSkipsPieces();
    NumbersSkipPieces();
  }

  lemma SplitSkipsPieces()
    ensures SplitOn([B('a'), B(';'), B('5'), B(';'), B(';'), B('9')], B(';')) == [[B('a')], [B('5')], [], [B('9')]]
  {
    SplitOnNone([B('9')], B(';'));
    SplitOnFirst([], B(';'), [B('9')]);
    assert [] + [B(';')] + [B('9')] == [B(';'), B('9')];
    SplitOnFirst([B('5')], B(';'), [B(';'), B('9')]);
    assert [B('5')] + [B(';')] + [B(';'), B('9')] == [B('5'), B(';'), B(';'), B('9')];
    SplitOnFirst([B('a')], B(';'), [B('5'), B(';'), B(';'), B('9')]);
    assert [B('a')] + [B(';')] + [B('5'), B(';'), B(';'), B('9')] == [B('a'), B(';'), B('5'), B(';'), B(';'), B('9')];
  }

  lemma NumbersSkipPieces()
    ensures Numbers([[B('a')], [B('5')], [], [B('9')]]) == [5, 9]
  {
    assert ParseUsize([B('a')]) == None && ParseUsize([]) == None;
    NumbersOfDecimals([[B('5')], [B('9')]], [5, 9]);
    NumbersCons([B('a')], [[B('5')], [], [B('9')]]);
    NumbersCons([B('5')], [[], [B('9')]]);
    NumbersCons([B('5')], [[B('9')]]);
    NumbersCons([], [[B('9')]]);
  }

  /** Numbers works piece by piece from the front. */
  lemma NumbersCons(p: seq<byte>, rest: seq<seq<byte>>)
    ensures Numbers([p] + rest) == (if ParseUsize(p).Some? then [ParseUsize(p).value] else []) + Numbers(rest)
  {
    assert ([p] + rest)[1..] == rest;
  }

  /** Pieces that are each the decimal spelling of a number give those numbers. */
  lemma {:induction false} NumbersOfDecimals(pieces: seq<seq<byte>>, ns: seq<nat>)
    requires |pieces| == |ns|
    requires forall i :: 0 <= i < |ns| ==> ns[i] < USIZE_LIMIT && pieces[i] == ShowDecimal(ns[i])
    ensures Numbers(pieces) == ns
  {
    if pieces != [] {
      ParseShowDecimal(ns[0]);
      NumbersOfDecimals(pieces[1..], ns[1..]);
      assert [ns[0]] + ns[1..] == ns;
    }
  }

  /** The reading loop of get_cursor_position: bytes up to 'R' or a timeout. */
  method ReadReport(input: seq<Option<byte>>, start: nat) returns (reply: seq<byte>, pos: nat)
    requires start <= |input|
    ensures (reply, pos) == ReportBytes(input, start)
  {
    reply, pos := [], start;
    var stop := false;
    assert [] + ReportBytes(input, pos).0 == ReportBytes(input, pos).0;
    while !stop && pos < |input|
      invariant start <= pos <= |input|
      invariant stop ==> ReportBytes(input, start) == (reply, pos)
      invariant !stop ==> ReportBytes(input, start) == (reply + ReportBytes(input, pos).0, ReportBytes(input, pos).1)
      decreases |input| - pos, !stop
    {
      var c := input[pos];
      pos := pos + 1;
      if c == None || c == Some(B('R')) {
        assert reply + [] == reply;
        stop := true;
      } else {
        Assoc(reply, [c.value], ReportBytes(input, pos).0);
        reply := reply + [c.value];
      }
    }
    if !stop {
      assert ReportBytes(input, pos).0 == [] && reply + [] == reply;
    }
  }

  // ---------------------------------------------------------------------------
  // The terminal
  // ---------------------------------------------------------------------------

  class Terminal {
    var num_rows: nat
    var num_cols: nat
    var term_buffer: seq<byte>
    var key_buffer: seq<byte>
    /** Standard input: the reads that will arrive, and how many have been made. */
    const input: seq<Option<byte>>
    var consumed: nat
    /** Standard output: every byte written so far. */
    var output: seq<byte>

    ghost predicate Valid()
      reads this
    {
      consumed <= |input|
    }

    /** A terminal of the given size, with empty buffers and nothing read or written. */
    constructor (input: seq<Option<byte>>, rows: nat, cols: nat)
      ensures Valid()
      ensures this.input == input && consumed == 0 && output == []
      ensures num_rows == rows && num_cols == cols && term_buffer == [] && key_buffer == []
    {
      this.input := input;
      consumed := 0;
      output := [];
      num_rows := rows;
      num_cols := cols;
      term_buffer := [];
      key_buffer := [];
    }

    /** Queues output: the buffer grows by `content` and nothing is written yet. */
    method Append(content: seq<byte>)
      modifies this
      ensures term_buffer == old(term_buffer) + content
      ensures output == old(output) && key_buffer == old(key_buffer) && consumed == old(consumed)
      ensures num_rows == old(num_rows) && num_cols == old(num_cols)
    {
      term_buffer := term_buffer + content;
    }

    /** Writes the queued output and leaves the buffer empty. */
    method Flush()
      modifies this
      ensures output == old(output) + old(term_buffer) && term_buffer == []
      ensures key_buffer == old(key_buffer) && consumed == old(consumed)
      ensures num_rows == old(num_rows) && num_cols == old(num_cols)
    {
      output := output + term_buffer;
      term_buffer := [];
    }

    /**
     * read_key: decodes one key as Decode specifies, leaving the pending stack
     * and the input position where Decode leaves them. No key means the input
     * ran out while waiting for a byte.
     */
    method ReadKey() returns (k: Option<Key>)
      requires Valid()
      modifies this
      ensures Valid()
      ensures Decoded(k, key_buffer, consumed) == Decode(old(key_buffer), input, old(consumed), true)
      ensures term_buffer == old(term_buffer) && output == old(output)
      ensures num_rows == old(num_rows) && num_cols == old(num_cols)
    {
      k, key_buffer, consumed := Keys.ReadKey(key_buffer, input, consumed, true);
    }

    /**
     * get_cursor_position: writes the DSR request, reads the reply and parses
     * it. A reply shorter than two bytes makes the source panic.
     */
    method GetCursorPosition() returns (r: Result<(nat, nat)>)
      requires Valid() && |ReportBytes(input, consumed).0| >= 2
      modifies this
      ensures Valid()
      ensures output == old(output) + DSR_REQUEST
      ensures var reply := ReportBytes(input, old(consumed));
        consumed == reply.1 && r == ParseCursorReport(reply.0)
      ensures key_buffer == old(key_buffer) && term_buffer == old(term_buffer)
      ensures num_rows == old(num_rows) && num_cols == old(num_cols)
    {
      output := output + DSR_REQUEST;
      var reply;
      reply, consumed := ReadReport(input, consumed);
      r := ParseCursorReport(reply);
    }
  }

  /**
   * The terminal's reply to the DSR request, read back from input: the cursor
   * position it reports, and the whole reply is consumed.
   */
  lemma CursorReportRoundTrip(row: nat, col: nat, input: seq<Option<byte>>, pos: nat)
    requires row < USIZE_LIMIT && col < USIZE_LIMIT
    requires var body := ReportBody(row, col);
      pos + |body| < |input| && input[pos + |body|] == Some(B('R')) &&
      forall i :: 0 <= i < |body| ==> input[pos + i] == Some(body[i])
    ensures var reply := ReportBytes(input, pos);
      reply.1 == pos + |ReportBody(row, col)| + 1 && |reply.0| >= 2 &&
      ParseCursorReport(reply.0) == Ok((row, col))
  {
    var body := ReportBody(row, col);
    NoSemicolonInDecimal(row);
    NoSemicolonInDecimal(col);
    assert B('R') !in body;
    ReportBytesReadsBody(body, input, pos);
    ParseReportBody(row, col);
  }
}
