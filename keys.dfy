/**
 * Decoding the terminal's byte stream into keys (read_key in src/terminal.rs and
 * editor_read_key in src/main.rs, which share one algorithm).
 *
 * Standard input is a finite sequence of reads: Some(b) is a byte, None is a
 * read that timed out (the terminal is set to VMIN = 0, VTIME = 1, so a read
 * returns nothing after about 100 ms). Reading past the end of the sequence
 * times out for ever. The pending-byte queue `key_buffer` is a stack: the next
 * byte to replay is its LAST element.
 */
module Keys {
  import opened Bytes

  datatype Motion = Up | Down | Left | Right | PgUp | PgDn | Home | End

  datatype Key =
    | Printable(b: byte)
    | Move(motion: Motion)
    | Control(c: byte)
    | Delete
    | Backspace
    | Newline
    | Escape
    | Tab

  // ---------------------------------------------------------------------------
  // Bytes outside escape sequences
  // ---------------------------------------------------------------------------

  /**
   * The key of a byte that does not start an escape sequence. The current
   * decoder has a Tab key (`tabIsKey`); the older one in src/main.rs has none,
   * so there a tab falls through to Control('I').
   */
  function PlainKey(b: byte, tabIsKey: bool): Key
  {
    if b == DEL then Backspace
    else if b == CR then Newline
    else if tabIsKey && b == TAB then Tab
    else if b < 32 then Control(b + 64)
    else Printable(b)
  }

  /** The byte a plain key stands for: the inverse of PlainKey. */
  function PlainByte(k: Key): Option<byte>
  {
    match k
    case Printable(b) => Some(b)
    case Control(c) => if 64 <= c < 96 then Some(c - 64) else None
    case Backspace => Some(DEL)
    case Newline => Some(CR)
    case Tab => Some(TAB)
    case _ => None
  }

  /** No information is lost on plain bytes: PlainByte undoes PlainKey in both decoders. */
  lemma PlainKeyInverse(b: byte, tabIsKey: bool)
    ensures PlainByte(PlainKey(b, tabIsKey)) == Some(b)
    ensures b != ESC ==> PlainKey(b, tabIsKey) != Escape
  {
  }

  /** Without a Tab key, byte 9 decodes as Control('I') and no byte decodes as Tab. */
  lemma LegacyHasNoTab(b: byte)
    ensures PlainKey(TAB, false) == Control(B('I'))
    ensures PlainKey(b, false) != Tab
  {
  }

  // ---------------------------------------------------------------------------
  // Escape sequences
  // ---------------------------------------------------------------------------

  /**
   * The table of escape sequences (VT100 / xterm cursor and editing keys) over
   * the three reads that follow an ESC. A match gives the key and, for the
   * two-byte sequences, the third read, which is pushed back to be replayed.
   * None means "no entry": the ESC is dropped and the reads are replayed.
   */
  function EscapeTable(look: seq<Option<byte>>): Option<(Key, Option<byte>)>
    requires |look| == 3
  {
    var a, b, c := look[0], look[1], look[2];
    if look == [None, None, None] then Some((Escape, None))
    else if a != Some(B('[')) then None
    else if b == Some(B('A')) then Some((Move(Up), c))
    else if b == Some(B('B')) then Some((Move(Down), c))
    else if b == Some(B('C')) then Some((Move(Right), c))
    else if b == Some(B('D')) then Some((Move(Left), c))
    else if b == Some(B('5')) && c == Some(B('~')) then Some((Move(PgUp), None))
    else if b == Some(B('6')) && c == Some(B('~')) then Some((Move(PgDn), None))
    else if b == Some(B('1')) && c == Some(B('~')) then Some((Move(Home), None))
    else if b == Some(B('7')) && c == Some(B('~')) then Some((Move(Home), None))
    else if b == Some(B('O')) && c == Some(B('H')) then Some((Move(Home), None))
    else if b == Some(B('H')) then Some((Move(Home), c))
    else if b == Some(B('4')) && c == Some(B('~')) then Some((Move(End), None))
    else if b == Some(B('8')) && c == Some(B('~')) then Some((Move(End), None))
    else if b == Some(B('O')) && c == Some(B('F')) then Some((Move(End), None))
    else if b == Some(B('F')) then Some((Move(End), c))
    else if b == Some(B('3')) && c == Some(B('~')) then Some((Delete, None))
    else None
  }

  // ---------------------------------------------------------------------------
  // Reading standard input
  // ---------------------------------------------------------------------------

  /** One read: the next entry of the input, or a timeout once the input is used up. */
  function ReadOne(input: seq<Option<byte>>, pos: nat): (r: (Option<byte>, nat))
    requires pos <= |input|
    ensures r.1 <= |input| && r.1 == Min(pos + 1, |input|)
    ensures pos < |input| ==> r.0 == input[pos]
    ensures pos == |input| ==> r.0 == None
  {
    if pos < |input| then (input[pos], pos + 1) else (None, pos)
  }

  /**
   * Reads until a byte arrives, skipping timeouts: the byte and the position
   * after it, or None when the input holds no further byte.
   */
  function NextByte(input: seq<Option<byte>>, pos: nat): (r: Option<(byte, nat)>)
    requires pos <= |input|
    ensures r.Some? ==>
      pos < r.value.1 <= |input| && input[r.value.1 - 1] == Some(r.value.0) &&
      forall j :: pos <= j < r.value.1 - 1 ==> input[j] == None
    ensures r.None? ==> forall j :: pos <= j < |input| ==> input[j] == None
    decreases |input| - pos
  {
    if pos == |input| then None
    else if input[pos].Some? then Some((input[pos].value, pos + 1))
    else NextByte(input, pos + 1)
  }

  /** The bytes among some reads, last read first: the order in which a stack replays them. */
  function Pushback(look: seq<Option<byte>>): (r: seq<byte>)
    ensures |r| <= |look|
  {
    if look == [] then []
    else Pushback(look[1..]) + (if look[0].Some? then [look[0].value] else [])
  }

  /** The bytes among some reads, in the order they arrived; the timeouts are dropped. */
  function Somes(look: seq<Option<byte>>): (r: seq<byte>)
    ensures |r| <= |look|
    ensures forall i :: 0 <= i < |r| ==> Some(r[i]) in look
  {
    if look == [] then []
    else (if look[0].Some? then [look[0].value] else []) + Somes(look[1..])
  }

  /**
   * The fallback refills the stack so that popping it (from the end) replays
   * the looked-ahead bytes in the order they arrived, without the timeouts.
   */
  lemma {:induction false} PushbackReplaysInOrder(look: seq<Option<byte>>)
    ensures |Pushback(look)| == |Somes(look)|
    ensures forall i :: 0 <= i < |Somes(look)| ==> Pushback(look)[|Pushback(look)| - 1 - i] == Somes(look)[i]
  {
    if look != [] {
      PushbackReplaysInOrder(look[1..]);
      if look[0].Some? {
        var p, q := Pushback(look[1..]), Somes(look[1..]);
        assert Pushback(look) == p + [look[0].value];
        assert Somes(look) == [look[0].value] + q;
        forall i | 0 <= i < |Somes(look)|
          ensures Pushback(look)[|Pushback(look)| - 1 - i] == Somes(look)[i]
        {
          if i > 0 {
            assert Pushback(look)[|Pushback(look)| - 1 - i] == p[|p| - 1 - (i - 1)];
          }
        }
      }
    }
  }

  /**
   * `n` look-ahead reads after an ESC: first the pending bytes, from the top of
   * the stack down, WITHOUT removing them, then fresh reads of the input.
   */
  function LookAhead(buf: seq<byte>, input: seq<Option<byte>>, pos: nat, n: nat): (r: (seq<Option<byte>>, nat))
    requires pos <= |input|
    ensures |r.0| == n && pos <= r.1 <= |input|
    ensures |Pushback(r.0)| <= Min(|buf|, n) + (r.1 - pos)
    decreases n
  {
    if n == 0 then ([], pos)
    else if |buf| > 0 then
      var rest := LookAhead(buf[..|buf| - 1], input, pos, n - 1);
      assert ([Some(buf[|buf| - 1])] + rest.0)[1..] == rest.0;
      ([Some(buf[|buf| - 1])] + rest.0, rest.1)
    else
      var one := ReadOne(input, pos);
      var rest := LookAhead([], input, one.1, n - 1);
      assert ([one.0] + rest.0)[1..] == rest.0;
      ([one.0] + rest.0, rest.1)
  }

  datatype Decoded = Decoded(key: Option<Key>, buffer: seq<byte>, pos: nat)

  /**
   * One call of read_key: the key decoded (None when the input runs out while
   * waiting for a byte, where the program would wait for ever), the pending
   * bytes left and the input position reached.
   */
  function Decode(buf: seq<byte>, input: seq<Option<byte>>, pos: nat, tabIsKey: bool): (r: Decoded)
    requires pos <= |input|
    ensures pos <= r.pos <= |input|
    decreases |buf| + (|input| - pos)
  {
    var first :=
      if |buf| > 0 then Some((buf[|buf| - 1], buf[..|buf| - 1], pos))
      else match NextByte(input, pos)
        case None => None
        case Some(bp) => Some((bp.0, buf, bp.1));
    if first.None? then Decoded(None, buf, |input|)
    else
      var key, buf1, pos1 := first.value.0, first.value.1, first.value.2;
      if key != ESC then Decoded(Some(PlainKey(key, tabIsKey)), buf1, pos1)
      else
        var ahead := LookAhead(buf1, input, pos1, 3);
        match EscapeTable(ahead.0)
        case Some(entry) =>
          Decoded(Some(entry.0), buf1 + (if entry.1.Some? then [entry.1.value] else []), ahead.1)
        case None =>
          Decode(Pushback(ahead.0), input, ahead.1, tabIsKey)
  }

  // ---------------------------------------------------------------------------
  // The reading loops, shared by both imperative decoders
  // ---------------------------------------------------------------------------

  /** Skips timeouts until a byte arrives. */
  method WaitForByte(input: seq<Option<byte>>, pos: nat) returns (r: Option<(byte, nat)>)
    requires pos <= |input|
    ensures r == NextByte(input, pos)
  {
    var i := pos;
    while i < |input| && input[i].None?
      invariant pos <= i <= |input|
      invariant NextByte(input, i) == NextByte(input, pos)
    {
      i := i + 1;
    }
    if i == |input| {
      r := None;
    } else {
      r := Some((input[i].value, i + 1));
    }
  }

  /** The `n` look-ahead reads after an ESC (three of them), taken from the pending stack without popping, then from the input. */
  method ReadLookAhead(buf: seq<byte>, input: seq<Option<byte>>, pos: nat, n: nat) returns (look: seq<Option<byte>>, p: nat)
    requires pos <= |input|
    ensures (look, p) == LookAhead(buf, input, pos, n)
  {
    look, p := [], pos;
    var rest := buf;
    var left := n;
    while left > 0
      invariant p <= |input| && |look| + left == n
      invariant LookAhead(buf, input, pos, n).0 == look + LookAhead(rest, input, p, left).0
      invariant LookAhead(buf, input, pos, n).1 == LookAhead(rest, input, p, left).1
    {
      if |rest| > 0 {
        LookAheadPop(rest, input, p, left);
        var top := Some(rest[|rest| - 1]);
        ghost var tail := LookAhead(rest[..|rest| - 1], input, p, left - 1);
        Assoc(look, [top], tail.0);
        look := look + [top];
        rest := rest[..|rest| - 1];
      } else {
        LookAheadRead(input, p, left);
        var one := ReadOne(input, p);
        ghost var tail := LookAhead([], input, one.1, left - 1);
        Assoc(look, [one.0], tail.0);
        look := look + [one.0];
        p := one.1;
      }
      left := left - 1;
    }
    assert look + [] == look;
  }

  /** A look-ahead step on a non-empty stack copies its top entry. */
  lemma LookAheadPop(buf: seq<byte>, input: seq<Option<byte>>, pos: nat, n: nat)
    requires pos <= |input| && |buf| > 0 && n > 0
    ensures var next := LookAhead(buf[..|buf| - 1], input, pos, n - 1);
      LookAhead(buf, input, pos, n) == ([Some(buf[|buf| - 1])] + next.0, next.1)
  {
  }

  /** A look-ahead step on an empty stack reads the input once. */
  lemma LookAheadRead(input: seq<Option<byte>>, pos: nat, n: nat)
    requires pos <= |input| && n > 0
    ensures var one := ReadOne(input, pos);
      var next := LookAhead([], input, one.1, n - 1);
      LookAhead([], input, pos, n) == ([one.0] + next.0, next.1)
  {
  }

  /** The look-ahead sees the pending bytes from the top of the stack down, before any fresh read. */
  lemma {:induction false} LookAheadCopiesStack(buf: seq<byte>, input: seq<Option<byte>>, pos: nat, n: nat)
    requires pos <= |input|
    ensures forall i :: 0 <= i < Min(|buf|, n) ==> LookAhead(buf, input, pos, n).0[i] == Some(buf[|buf| - 1 - i])
    decreases n
  {
    if n > 0 && |buf| > 0 {
      var below := buf[..|buf| - 1];
      LookAheadCopiesStack(below, input, pos, n - 1);
      LookAheadPop(buf, input, pos, n);
      forall i | 0 <= i < Min(|buf|, n)
        ensures LookAhead(buf, input, pos, n).0[i] == Some(buf[|buf| - 1 - i])
      {
        if i > 0 {
          assert below[|below| - 1 - (i - 1)] == buf[|buf| - 1 - i];
        }
      }
    }
  }

  /**
   * Refilling the stack after an unknown escape sequence: the bytes among the
   * look-ahead reads, pushed last read first, so the first read is on top.
   */
  method Refill(look: seq<Option<byte>>) returns (r: seq<byte>)
    ensures r == Pushback(look)
  {
    r := [];
    var i := |look|;
    while i > 0
      invariant 0 <= i <= |look|
      invariant r == Pushback(look[i..])
    {
      i := i - 1;
      assert look[i..][1..] == look[i + 1..];
      if look[i].Some? {
        r := r + [look[i].value];
      }
    }
    assert look[0..] == look;
  }

  /** Why the fallback recursion ends: pending bytes plus unread input shrink by at least one per round. */
  lemma FallbackShrinks(buf: seq<byte>, input: seq<Option<byte>>, pos: nat, pos1: nat, buf1: seq<byte>)
    requires pos1 <= |input|
    requires |buf1| + (|input| - pos1) < |buf| + (|input| - pos)
    ensures var ahead := LookAhead(buf1, input, pos1, 3);
      |Pushback(ahead.0)| + (|input| - ahead.1) < |buf| + (|input| - pos)
  {
  }

  /**
   * The read-key procedure of both editors over the pending stack `buf` and
   * the input from `pos`: pops or waits for a byte, and after an ESC reads
   * three bytes ahead; an unknown escape sequence is pushed back and decoding
   * starts again.
   */
  method ReadKey(buf: seq<byte>, input: seq<Option<byte>>, pos: nat, tabIsKey: bool)
      returns (k: Option<Key>, buf': seq<byte>, pos': nat)
    requires pos <= |input|
    ensures Decoded(k, buf', pos') == Decode(buf, input, pos, tabIsKey)
    decreases |buf| + (|input| - pos)
  {
    var key: byte;
    var buf1, pos1 := buf, pos;
    if |buf| > 0 {
      key, buf1 := buf[|buf| - 1], buf[..|buf| - 1];
    } else {
      var next := WaitForByte(input, pos);
      if next.None? {
        return None, buf, |input|;
      }
      key, pos1 := next.value.0, next.value.1;
    }
    if key != ESC {
      return Some(PlainKey(key, tabIsKey)), buf1, pos1;
    }
    var look, p := ReadLookAhead(buf1, input, pos1, 3);
    var entry := EscapeTable(look);
    if entry.Some? {
      buf' := buf1;
      if entry.value.1.Some? {
        buf' := buf1 + [entry.value.1.value];
      }
      return Some(entry.value.0), buf', p;
    }
    FallbackShrinks(buf, input, pos, pos1, buf1);
    var pending := Refill(look);
    k, buf', pos' := ReadKey(pending, input, p, tabIsKey);
  }

  // ---------------------------------------------------------------------------
  // Properties of the decoder
  // ---------------------------------------------------------------------------

  /** A pending byte is replayed before the input is touched. */
  lemma DecodePopsPendingFirst(buf: seq<byte>, input: seq<Option<byte>>, pos: nat, tabIsKey: bool)
    requires pos <= |input| && |buf| > 0 && buf[|buf| - 1] != ESC
    ensures Decode(buf, input, pos, tabIsKey) ==
      Decoded(Some(PlainKey(buf[|buf| - 1], tabIsKey)), buf[..|buf| - 1], pos)
  {
  }

  /** With nothing pending, timeouts are skipped and the first byte is decoded. */
  lemma DecodeSkipsTimeouts(input: seq<Option<byte>>, pos: nat, j: nat, b: byte, tabIsKey: bool)
    requires pos <= j < |input| && input[j] == Some(b) && b != ESC
    requires forall i :: pos <= i < j ==> input[i] == None
    ensures Decode([], input, pos, tabIsKey) == Decoded(Some(PlainKey(b, tabIsKey)), [], j + 1)
  {
    NextByteSkips(input, pos, j);
  }

  lemma {:induction false} NextByteSkips(input: seq<Option<byte>>, pos: nat, j: nat)
    requires pos <= j < |input| && input[j].Some?
    requires forall i :: pos <= i < j ==> input[i] == None
    ensures NextByte(input, pos) == Some((input[j].value, j + 1))
    decreases j - pos
  {
    if pos < j {
      NextByteSkips(input, pos + 1, j);
    }
  }

  /** Input without any byte gives no key: the program would keep waiting. */
  lemma DecodeWaitsForever(input: seq<Option<byte>>, pos: nat, tabIsKey: bool)
    requires pos <= |input| && forall i :: pos <= i < |input| ==> input[i] == None
    ensures Decode([], input, pos, tabIsKey).key == None
  {
  }

  /** An ESC followed by three timeouts is the Escape key. */
  lemma DecodeLoneEscape(tabIsKey: bool)
    ensures Decode([], [Some(ESC), None, None, None], 0, tabIsKey) == Decoded(Some(Escape), [], 4)
  {
    var input := [Some(ESC), None, None, None];
    assert NextByte(input, 0) == Some((ESC, 1));
    ReadsAhead(input, 1, 3);
  }

  /** ESC '[' 'A' and one more read: Up, with that read pushed back when it holds a byte. */
  lemma DecodeArrowUp(third: Option<byte>, tabIsKey: bool)
    ensures Decode([], [Some(ESC), Some(B('[')), Some(B('A')), third], 0, tabIsKey) ==
      Decoded(Some(Move(Up)), if third.Some? then [third.value] else [], 4)
  {
    var input := [Some(ESC), Some(B('[')), Some(B('A')), third];
    assert NextByte(input, 0) == Some((ESC, 1));
    ReadsAhead(input, 1, 3);
  }

  /** ESC 'x' and two timeouts: no table entry, the ESC is dropped and 'x' is replayed. */
  lemma DecodeUnknownEscape(tabIsKey: bool)
    ensures Decode([], [Some(ESC), Some(B('x')), None, None], 0, tabIsKey) ==
      Decoded(Some(Printable(B('x'))), [], 4)
  {
    var input := [Some(ESC), Some(B('x')), None, None];
    assert NextByte(input, 0) == Some((ESC, 1));
    var look := [Some(B('x')), None, None];
    ReadsAhead(input, 1, 3);
    assert look[1..] == [None, None] && look[1..][1..] == [None] && look[1..][1..][1..] == [];
    assert Pushback(look) == [B('x')];
  }

  /**
   * ESC ESC '[' 'A' then a timeout: the look-ahead does not pop the pending
   * bytes, so the keys are Up, then '[' and 'A' replayed as printable keys.
   */
  lemma DecodeDoubleEscape(tabIsKey: bool)
    ensures var input := [Some(ESC), Some(ESC), Some(B('[')), Some(B('A')), None];
      var d1 := Decode([], input, 0, tabIsKey);
      var d2 := Decode(d1.buffer, input, d1.pos, tabIsKey);
      var d3 := Decode(d2.buffer, input, d2.pos, tabIsKey);
      d1.key == Some(Move(Up)) && d2.key == Some(Printable(B('['))) &&
      d3.key == Some(Printable(B('A'))) && d3.buffer == [] && d3.pos == 5
  {
    var input := [Some(ESC), Some(ESC), Some(B('[')), Some(B('A')), None];
    DoubleEscapeFallback(tabIsKey);
    DoubleEscapeReplay(tabIsKey);
    var rest := [B('A'), B('[')];
    assert rest[..1] == [B('A')] && [B('A')][..0] == [];
  }

  /** The first key: ESC ESC '[' has no table entry, so the three reads are pushed back and decoded again. */
  lemma DoubleEscapeFallback(tabIsKey: bool)
    ensures Decode([], [Some(ESC), Some(ESC), Some(B('[')), Some(B('A')), None], 0, tabIsKey) ==
      Decoded(Some(Move(Up)), [B('A'), B('[')], 5)
  {
    var input := [Some(ESC), Some(ESC), Some(B('[')), Some(B('A')), None];
    assert NextByte(input, 0) == Some((ESC, 1));
    var look := [Some(ESC), Some(B('[')), Some(B('A'))];
    ReadsAhead(input, 1, 3);
    assert input[1..4] == look;
    assert EscapeTable(look) == None;
    PushbackCons(Some(B('A')), []);
    PushbackCons(Some(B('[')), [Some(B('A'))]);
    PushbackCons(Some(ESC), [Some(B('[')), Some(B('A'))]);
    var pending := [B('A'), B('['), ESC];
    assert Pushback(look) == pending;
    assert pending[..2] == [B('A'), B('[')];
    PendingLookAhead(input);
    assert EscapeTable([Some(B('[')), Some(B('A')), None]) == Some((Move(Up), None));
  }

  /** Three look-ahead reads over the pending "A[" (top '['): both pending bytes, then the timeout at position 4. */
  lemma PendingLookAhead(input: seq<Option<byte>>)
    requires |input| == 5 && input[4] == None
    ensures LookAhead([B('A'), B('[')], input, 4, 3) == ([Some(B('[')), Some(B('A')), None], 5)
  {
    var rest := [B('A'), B('[')];
    LookAheadPop(rest, input, 4, 3);
    assert rest[..1] == [B('A')];
    LookAheadPop([B('A')], input, 4, 2);
    assert [B('A')][..0] == [];
    ReadsAhead(input, 4, 1);
    assert input[4..5] == [None];
    assert [Some(B('A'))] + [None] == [Some(B('A')), None];
    assert [Some(B('['))] + [Some(B('A')), None] == [Some(B('[')), Some(B('A')), None];
  }

  /** The next two keys replay the pending '[' and 'A' without reading input. */
  lemma DoubleEscapeReplay(tabIsKey: bool)
    ensures var input := [Some(ESC), Some(ESC), Some(B('[')), Some(B('A')), None];
      Decode([B('A'), B('[')], input, 5, tabIsKey) == Decoded(Some(Printable(B('['))), [B('A')], 5) &&
      Decode([B('A')], input, 5, tabIsKey) == Decoded(Some(Printable(B('A'))), [], 5)
  {
    assert [B('A'), B('[')][..1] == [B('A')] && [B('A')][..0] == [];
  }

  lemma PushbackCons(x: Option<byte>, look: seq<Option<byte>>)
    ensures Pushback([x] + look) == Pushback(look) + (if x.Some? then [x.value] else [])
  {
    assert ([x] + look)[1..] == look;
  }

  // ---------------------------------------------------------------------------
  // Encoding keys as a terminal sends them
  // ---------------------------------------------------------------------------

  /** One byte sequence a VT100/xterm terminal sends for each key. */
  function Encode(k: Key): seq<byte>
  {
    match k
    case Printable(b) => [b]
    case Control(c) => if 64 <= c then [c - 64] else [c]
    case Backspace => [DEL]
    case Newline => [CR]
    case Tab => [TAB]
    case Escape => [ESC]
    case Delete => [ESC, B('['), B('3'), B('~')]
    case Move(m) =>
      match m
      case Up => [ESC, B('['), B('A')]
      case Down => [ESC, B('['), B('B')]
      case Right => [ESC, B('['), B('C')]
      case Left => [ESC, B('['), B('D')]
      case PgUp => [ESC, B('['), B('5'), B('~')]
      case PgDn => [ESC, B('['), B('6'), B('~')]
      case Home => [ESC, B('['), B('H')]
      case End => [ESC, B('['), B('F')]
  }

  /** The keys the current decoder can produce. */
  predicate Decodable(k: Key)
  {
    match k
    case Printable(b) => 32 <= b && b != DEL
    case Control(c) => 64 <= c < 96 && c - 64 != TAB && c - 64 != CR && c - 64 != ESC
    case _ => true
  }

  /** Input in which each byte arrives without a timeout in between. */
  function Arrivals(s: seq<byte>): (r: seq<Option<byte>>)
    ensures |r| == |s| && forall i :: 0 <= i < |s| ==> r[i] == Some(s[i])
  {
    seq(|s|, i requires 0 <= i < |s| => Some(s[i]))
  }

  function Timeouts(n: nat): (r: seq<Option<byte>>)
    ensures |r| == n && forall i :: 0 <= i < n ==> r[i] == None
  {
    if n == 0 then [] else Timeouts(n - 1) + [None]
  }

  /**
   * Every key the decoder knows round-trips: sent alone and followed by
   * timeouts, it decodes to itself with nothing left pending. An escape
   * sequence always consumes three reads after the ESC, so a three-byte
   * sequence also consumes one timeout.
   */
  lemma DecodeEncode(k: Key)
    requires Decodable(k)
    ensures var input := Arrivals(Encode(k)) + Timeouts(3);
      Decode([], input, 0, true) == Decoded(Some(k), [], if k == Escape || |Encode(k)| > 1 then 4 else 1)
  {
    var e := Encode(k);
    var input := Arrivals(e) + Timeouts(3);
    assert input[0] == Some(e[0]) by { assert input[0] == Arrivals(e)[0]; }
    assert NextByte(input, 0) == Some((e[0], 1));
    if e[0] == ESC {
      var look := input[1..4];
      assert look == Arrivals(e)[1..] + Timeouts(3)[..4 - |e|];
      assert look[0] == if |e| > 1 then Some(e[1]) else None;
      assert look[1] == if |e| > 2 then Some(e[2]) else None;
      assert look[2] == if |e| > 3 then Some(e[3]) else None;
      DecodeTableHit(input, look, k);
    } else {
      assert |e| == 1;
      assert PlainKey(e[0], true) == k;
    }
  }

  /** An ESC followed by three reads that the table maps to a key with nothing to push back. */
  lemma DecodeTableHit(input: seq<Option<byte>>, look: seq<Option<byte>>, k: Key)
    requires |input| >= 4 && input[0] == Some(ESC) && look == input[1..4]
    requires EscapeTable(look) == Some((k, None))
    ensures Decode([], input, 0, true) == Decoded(Some(k), [], 4)
  {
    assert NextByte(input, 0) == Some((ESC, 1));
    ReadsAhead(input, 1, 3);
  }

  /** With nothing pending and enough input, the look-ahead reads the next n entries. */
  lemma {:induction false} ReadsAhead(input: seq<Option<byte>>, pos: nat, n: nat)
    requires pos + n <= |input|
    ensures LookAhead([], input, pos, n) == (input[pos..pos + n], pos + n)
    decreases n
  {
    if n > 0 {
      ReadsAhead(input, pos + 1, n - 1);
      SliceCons(input, pos, pos + n);
    } else {
      assert input[pos..pos] == [];
    }
  }
}
