/** The framed transport and the command bridge of the syncer: partial writes, receiving up to a
    terminator, raw and paste mode, running one line of source (`__call__`) and `eval`. */
module Transport {
  import opened Errors
  import opened Seqs

  newtype byte = x: int | 0 <= x < 256

  const CTRL_A: byte := 1
  const CTRL_B: byte := 2
  const CTRL_D: byte := 4
  const CTRL_E: byte := 5

  /** CR LF. */
  const EOL: seq<byte> := [13, 10]
  /** CR LF followed by the prompt `>>> `. */
  const DEFAULT_TERMINATOR: seq<byte> := EOL + [62, 62, 62, 32]
  const RAW_BANNER: seq<byte> := Ascii("raw REPL; CTRL-B to exit\r\n")
  const RAW_OK: seq<byte> := Ascii("OK\r\n")
  /** The text by which a reply is recognised as an unhandled exception on the device. */
  const TRACEBACK: string := "Traceback (most recent call last):"
  const IMPORT_UOS: string := "import uos"

  predicate IsAscii(s: string) {
    forall i | 0 <= i < |s| :: s[i] as int < 128
  }

  predicate IsAsciiBytes(b: seq<byte>) {
    forall i | 0 <= i < |b| :: b[i] < 128
  }

  /** `s.encode('ascii')` for text known to be ASCII. */
  function Ascii(s: string): (b: seq<byte>)
    requires IsAscii(s)
    ensures |b| == |s| && IsAsciiBytes(b)
    ensures forall i | 0 <= i < |s| :: b[i] as int == s[i] as int
  {
    seq(|s|, i requires 0 <= i < |s| => s[i] as int as byte)
  }

  /** `b.decode('ascii')`, which fails on a byte above 127. */
  function Decode(b: seq<byte>): (r: Result<string>)
    ensures r.Ok? <==> IsAsciiBytes(b)
    ensures r.Ok? ==> IsAscii(r.value) && Ascii(r.value) == b
  {
    if IsAsciiBytes(b) then
      var s := seq(|b|, i requires 0 <= i < |b| => b[i] as int as char);
      assert Ascii(s) == b;
      Ok(s)
    else Err(Encoding)
  }

  /** Decoding what was encoded gives the text back. */
  lemma DecodeAscii(s: string)
    requires IsAscii(s)
    ensures Decode(Ascii(s)) == Ok(s)
  {
    var r := Decode(Ascii(s));
    assert Ascii(r.value) == Ascii(s);
    forall i | 0 <= i < |s|
      ensures r.value[i] == s[i]
    {
      assert Ascii(r.value)[i] == Ascii(s)[i];
    }
    assert |r.value| == |s|;
    assert r.value == s;
  }

  /** The bytes `__call__` sends for a command: its ASCII encoding, with CR LF added unless it
      already ends with CR LF. */
  function Line(cmd: string): (b: seq<byte>)
    requires IsAscii(cmd)
    ensures EndsWith(b, EOL) && StartsWith(b, Ascii(cmd))
    ensures EndsWith(Ascii(cmd), EOL) ==> b == Ascii(cmd)
    ensures !EndsWith(Ascii(cmd), EOL) ==> b == Ascii(cmd) + EOL
  {
    var c := Ascii(cmd);
    if EndsWith(c, EOL) then c else c + EOL
  }

  /** Everything one `__call__` writes: CTRL-E, the line, CTRL-D. */
  function Frame(cmd: string): (b: seq<byte>)
    requires IsAscii(cmd)
    ensures |b| >= 2 && b[0] == CTRL_E && b[|b| - 1] == CTRL_D && b[1..|b| - 1] == Line(cmd)
  {
    [CTRL_E] + Line(cmd) + [CTRL_D]
  }

  /** The part of `__call__` after the reply is received: strip the echo when one is expected,
      decode as ASCII, and turn a traceback into a fault. */
  function Interpret(reply: seq<byte>, line: seq<byte>, expectEcho: bool): (r: Result<string>)
    ensures r.Ok? ==> IsAscii(r.value) && !Contains(r.value, TRACEBACK)
    ensures r.Ok? ==> reply == (if expectEcho then line else []) + Ascii(r.value)
    ensures r.Err? && r.error.Fault? ==>
      Contains(r.error.message, TRACEBACK) && IsAscii(r.error.message) &&
      reply == (if expectEcho then line else []) + Ascii(r.error.message)
    ensures r.Err? ==>
      r.error.Fault? || r.error == Encoding || (r.error.Desync? && expectEcho && !StartsWith(reply, line))
    // and the other way: the echo check comes first, then decoding, then the marker
    ensures expectEcho && !StartsWith(reply, line) ==> r == Err(Desync("echo"))
    ensures !expectEcho || StartsWith(reply, line) ==>
      var body := reply[(if expectEcho then |line| else 0)..];
      (r == Err(Encoding) <==> !IsAsciiBytes(body)) &&
      (IsAsciiBytes(body) ==>
        (r.Ok? <==> !Contains(Decode(body).value, TRACEBACK)) &&
        (r.Err? ==> r.error.Fault?))
  {
    if expectEcho && !StartsWith(reply, line) then Err(Desync("echo"))
    else
      var body := if expectEcho then reply[|line|..] else reply;
      assert reply == (if expectEcho then line else []) + body;
      match Decode(body)
      case Err(e) => Err(e)
      case Ok(text) =>
        if Contains(text, TRACEBACK) then Err(Fault(text)) else Ok(text)
  }

  /** A reply that echoes the line and then prints ASCII text without the marker gives that
      text back. */
  lemma InterpretEcho(cmd: string, text: string)
    requires IsAscii(cmd) && IsAscii(text) && !Contains(text, TRACEBACK)
    ensures Interpret(Line(cmd) + Ascii(text), Line(cmd), true) == Ok(text)
  {
    var line, reply := Line(cmd), Line(cmd) + Ascii(text);
    assert reply[..|line|] == line;
    assert reply[|line|..] == Ascii(text);
    DecodeAscii(text);
  }

  /** How the echo of the listing loop ends just before the items: the loop's last line, then the
      paste-mode prompt `=== ` and a newline. */
  const LOOP_END: seq<byte> := Ascii("print(i)\r\n=== \n")

  /** The loop `ilistdir` pastes, for a path already written as a Python literal (`repr`, which
      this model takes as given). */
  function ListLoop(quoted: string): string {
    "for i in uos.ilistdir(" + quoted + "):\r\n    print(i)\r\n"
  }

  /** Python's `output[start:]`, which is empty past the end. */
  function From(output: seq<byte>, start: nat): (r: seq<byte>)
    ensures start <= |output| ==> r == output[start..]
    ensures start > |output| ==> r == []
  {
    if start <= |output| then output[start..] else []
  }

  /** The item lines of a listing reply as `ilistdir` cuts them: what follows the first LOOP_END,
      split at CR LF, the first piece required empty. The header check `assert idx` fails only
      when LOOP_END starts the reply; when it is missing, `find` gives -1, which passes, and the
      lines are cut from byte |LOOP_END| - 1 on. */
  function ItemLinesAsWritten(output: seq<byte>): Result<seq<seq<byte>>> {
    var idx := Find(output, LOOP_END);
    if idx == 0 then Err(Desync("listing header"))
    else
      var lines := Split(From(output, idx + |LOOP_END|), EOL);
      if lines[0] != [] then Err(Desync("listing header")) else Ok(lines[1..])
  }

  /** The item lines with the header check the loop evidently means: LOOP_END must occur. */
  function ItemLines(output: seq<byte>): (r: Result<seq<seq<byte>>>)
    ensures !Contains(output, LOOP_END) ==> r == Err(Desync("listing header"))
  {
    var idx := Find(output, LOOP_END);
    if idx < 0 then Err(Desync("listing header"))
    else
      var lines := Split(output[idx + |LOOP_END|..], EOL);
      if lines[0] != [] then Err(Desync("listing header")) else Ok(lines[1..])
  }

  /** The item lines are exactly what follows the header: each free of CR LF, and joined back with
      CR LF after the empty first piece they give the text after LOOP_END. */
  lemma ItemLinesSplit(output: seq<byte>)
    ensures var r := ItemLines(output);
      r.Ok? ==>
        Contains(output, LOOP_END) &&
        (forall k | 0 <= k < |r.value| :: !Contains(r.value[k], EOL)) &&
        JoinWith([[]] + r.value, EOL) == output[Find(output, LOOP_END) + |LOOP_END|..]
  {
    var r := ItemLines(output);
    if r.Ok? {
      var rest := output[Find(output, LOOP_END) + |LOOP_END|..];
      var lines := Split(rest, EOL);
      JoinSplit(rest, EOL);
      SplitPiecesFree(rest, EOL);
      assert lines == [[]] + r.value;
      forall k | 0 <= k < |r.value|
        ensures !Contains(r.value[k], EOL)
      {
        assert r.value[k] == lines[k + 1];
      }
    }
  }

  /** Wherever the header is found past the first byte, the check as written and the intended one
      agree. */
  lemma ItemLinesAgree(output: seq<byte>)
    requires Find(output, LOOP_END) > 0
    ensures ItemLinesAsWritten(output) == ItemLines(output)
  {
  }

  /** A reply with no header at all is not refused: when it is short it reads as an empty listing,
      where the intended check reports the missing header. */
  lemma HeaderMissingAccepted(output: seq<byte>)
    requires !Contains(output, LOOP_END) && |output| < |LOOP_END|
    ensures ItemLinesAsWritten(output) == Ok([])
    ensures ItemLines(output) == Err(Desync("listing header"))
  {
    assert |LOOP_END| == 15;
    assert Find(output, LOOP_END) == -1;
    var f := From(output, Find(output, LOOP_END) + |LOOP_END|);
    assert f == [];
    assert Find(f, EOL) == -1;
    assert Split(f, EOL) == [[]];
    assert Split(f, EOL)[1..] == [];
  }

  /** The listing loop is ASCII whenever the quoted path is. */
  lemma LoopAscii(quoted: string)
    requires IsAscii(quoted)
    ensures IsAscii(ListLoop(quoted))
  {
    var a := "for i in uos.ilistdir(";
    var b := "):\r\n    print(i)\r\n";
    assert IsAscii(a) && IsAscii(b);
    var s := ListLoop(quoted);
    assert s == a + quoted + b;
    forall i | 0 <= i < |s|
      ensures s[i] as int < 128
    {
      if i < |a| {
        assert s[i] == a[i];
      } else if i < |a| + |quoted| {
        assert s[i] == quoted[i - |a|];
      } else {
        assert s[i] == b[i - |a| - |quoted|];
      }
    }
  }

  /** One write call: what it was given and how many bytes it accepted. */
  type WriteCall = (seq<byte>, nat)

  /** `log` is a run of write calls that takes `data` down to `rest`: the first call is given all of
      `data`, each later call exactly what the earlier ones left, and every call accepts at least
      one byte. */
  ghost predicate DrainsTo(log: seq<WriteCall>, data: seq<byte>, rest: seq<byte>)
    decreases |log|
  {
    if log == [] then rest == data
    else log[0].0 == data && 1 <= log[0].1 <= |data| && DrainsTo(log[1..], data[log[0].1..], rest)
  }

  /** The bytes a run of write calls accepted, in order. */
  function Accepted(log: seq<WriteCall>): seq<byte> {
    if log == [] then []
    else (if log[0].1 <= |log[0].0| then log[0].0[..log[0].1] else log[0].0) + Accepted(log[1..])
  }

  /** One more call, given what is left, extends the run. */
  lemma {:induction false} DrainsToStep(log: seq<WriteCall>, data: seq<byte>, rest: seq<byte>, n: nat)
    requires DrainsTo(log, data, rest) && 1 <= n <= |rest|
    ensures DrainsTo(log + [(rest, n)], data, rest[n..])
    decreases |log|
  {
    if log != [] {
      DrainsToStep(log[1..], data[log[0].1..], rest, n);
      assert (log + [(rest, n)])[1..] == log[1..] + [(rest, n)];
    }
  }

  /** A run that takes `data` down to `rest` accepted exactly the bytes in front of `rest`, and
      made no more calls than it accepted bytes. */
  lemma {:induction false} DrainsToAccepted(log: seq<WriteCall>, data: seq<byte>, rest: seq<byte>)
    requires DrainsTo(log, data, rest)
    ensures Accepted(log) + rest == data
    ensures |log| + |rest| <= |data|
    decreases |log|
  {
    if log != [] {
      DrainsToAccepted(log[1..], data[log[0].1..], rest);
      assert data == data[..log[0].1] + data[log[0].1..];
    }
  }

  /** Reading the first `consumed` bytes into the buffer loses none and takes them from the front. */
  lemma RecvKept(buffer: seq<byte>, incoming: seq<byte>, consumed: nat)
    requires consumed <= |incoming|
    ensures (buffer + incoming[..consumed]) + incoming[consumed..] == buffer + incoming
    ensures incoming[consumed..] == incoming[|incoming| - |incoming[consumed..]|..]
    ensures incoming[..|incoming| - |incoming[consumed..]|] == incoming[..consumed]
  {
    TakeDrop(incoming, consumed);
    AppendAssoc(buffer, incoming[..consumed], incoming[consumed..]);
  }

  /** Where `recv` cuts once the buffer, the old buffer followed by the first `consumed` bytes read,
      holds the terminator: the same place as in the whole stream (buffer followed by every byte
      still to be read), and nothing before it holds the terminator. */
  lemma RecvCut(buffer: seq<byte>, incoming: seq<byte>, consumed: nat, term: seq<byte>)
    requires consumed <= |incoming| && Contains(buffer + incoming[..consumed], term)
    ensures var stream := buffer + incoming;
      var b := buffer + incoming[..consumed];
      var i := Find(b, term);
      Find(stream, term) == i && i + |term| <= |b| && b[..i] == stream[..i] &&
      b[i + |term|..] + incoming[consumed..] == stream[i + |term|..] &&
      buffer + incoming[..consumed] == b[..i] + term + b[i + |term|..] &&
      (|term| > 0 ==> !Contains(b[..i], term))
  {
    var b := buffer + incoming[..consumed];
    var u := incoming[consumed..];
    var i := Find(b, term);
    TakeDrop(incoming, consumed);
    AppendAssoc(buffer, incoming[..consumed], u);
    FindExtend(b, u, term);
    SliceAppend(b, u, i);
    SliceAppend(b, u, i + |term|);
    AroundOccurrence(b, term, i);
    if |term| > 0 {
      BeforeFirstIsFree(b, term);
    }
  }

  /** What `recv` returns and keeps once the buffer, the old buffer `b0` followed by the first
      `consumed` bytes of `in0`, holds the terminator, stated against the whole stream. */
  lemma RecvOk(b0: seq<byte>, in0: seq<byte>, consumed: nat, term: seq<byte>,
               chunk: seq<byte>, kept: seq<byte>, rest: seq<byte>)
    requires consumed <= |in0| && rest == in0[consumed..]
    requires var b := b0 + in0[..consumed];
      Contains(b, term) && chunk == b[..Find(b, term)] && kept == b[Find(b, term) + |term|..]
    ensures var stream := b0 + in0;
      var i := Find(stream, term);
      i >= 0 && chunk == stream[..i] && kept + rest == stream[i + |term|..]
    ensures b0 + in0[..|in0| - |rest|] == chunk + term + kept
    ensures |term| > 0 ==> !Contains(chunk, term)
  {
    RecvKept(b0, in0, consumed);
    RecvCut(b0, in0, consumed, term);
  }

  /** `r` is what one `__call__` of `cmd` with the echo expected, run on the byte stream `stream`,
      may return, and `after` is what it leaves to be read: a non-ASCII command fails before
      anything is read; otherwise the reply up to the first prompt is interpreted and the rest
      left, unless the receive times out, which loses nothing. */
  predicate Answers(r: Result<string>, stream: seq<byte>, cmd: string, after: seq<byte>) {
    if !IsAscii(cmd) then r == Err(Encoding) && after == stream
    else
      var i := Find(stream, DEFAULT_TERMINATOR);
      (r == Err(Timeout) && after == stream) ||
      (i >= 0 && r == Interpret(stream[..i], Line(cmd), true) &&
       after == stream[i + |DEFAULT_TERMINATOR|..])
  }

  /** The serial line as the host sees it. `incoming` is what the device has printed and the host
      has not read yet; `sent` is every byte the device accepted; `writes` logs each write call. */
  class Port {
    var incoming: seq<byte>
    var sent: seq<byte>
    var writes: seq<WriteCall>
    /** The most bytes one write call accepts. */
    const window: nat

    ghost predicate Valid()
      reads this
    {
      window >= 1
    }

    constructor (pending: seq<byte>, window: nat)
      requires window >= 1
      ensures Valid() && incoming == pending && sent == [] && writes == [] && this.window == window
    {
      incoming := pending;
      sent := [];
      writes := [];
      this.window := window;
    }

    /** `ser.write(data)`: accepts a non-empty prefix of `data`. */
    method Write(data: seq<byte>) returns (n: nat)
      requires Valid() && |data| > 0
      modifies this
      ensures 1 <= n <= |data|
      ensures sent == old(sent) + data[..n] && writes == old(writes) + [(data, n)]
      ensures incoming == old(incoming)
    {
      n := if |data| < window then |data| else window;
      sent := sent + data[..n];
      writes := writes + [(data, n)];
    }

    /** `ser.read()`: one byte, or nothing when the read times out on an empty line. */
    method Read() returns (b: seq<byte>)
      modifies this
      ensures |b| <= 1 && old(incoming) == b + incoming
      ensures b == [] <==> old(incoming) == []
      ensures sent == old(sent) && writes == old(writes)
    {
      if incoming == [] {
        b := [];
      } else {
        b := incoming[..1];
        incoming := incoming[1..];
      }
    }
  }

  /** The syncer's connection state: the port, the receive buffer and the `uos_imported` flag.
      The idle timeout is a budget of reads that one receive may make. */
  class Syncer {
    const port: Port
    const budget: nat
    var buffer: seq<byte>
    var uosImported: bool

    ghost predicate Valid()
      reads this, port
    {
      port.Valid()
    }

    constructor (port: Port, budget: nat)
      requires port.Valid()
      ensures Valid() && this.port == port && this.budget == budget
      ensures buffer == [] && !uosImported
    {
      this.port := port;
      this.budget := budget;
      buffer := [];
      uosImported := false;
    }

    /** `send`: keeps writing until every byte of `data` is accepted. */
    method Send(data: seq<byte>)
      requires Valid()
      modifies port
      ensures Valid()
      ensures port.sent == old(port.sent) + data
      ensures |old(port.writes)| <= |port.writes| && port.writes[..|old(port.writes)|] == old(port.writes)
      ensures DrainsTo(port.writes[|old(port.writes)|..], data, [])
      ensures port.incoming == old(port.incoming)
    {
      var idx := 0;
      ghost var before := port.writes;
      while idx < |data|
        invariant 0 <= idx <= |data|
        invariant port.sent == old(port.sent) + data[..idx]
        invariant |before| <= |port.writes| && port.writes[..|before|] == before
        invariant DrainsTo(port.writes[|before|..], data, data[idx..])
        invariant port.incoming == old(port.incoming)
        invariant port.Valid()
      {
        ghost var w0 := port.writes;
        var n := port.Write(data[idx..]);
        DrainsToStep(w0[|before|..], data, data[idx..], n);
        SliceAppend(w0, [(data[idx..], n)], |before|);
        DropDrop(data, idx, n);
        AppendAssoc(old(port.sent), data[..idx], data[idx..][..n]);
        idx := idx + n;
      }
      assert data[..idx] == data && data[idx..] == [];
    }

    /** `recv`: reads until `term` occurs in the buffer, returns what precedes its first
        occurrence and keeps what follows it. Gives up with `Timeout` once the read budget is
        spent. */
    method Recv(term: seq<byte>) returns (r: Result<seq<byte>>)
      requires Valid()
      modifies this`buffer, port
      ensures Valid()
      ensures port.sent == old(port.sent) && port.writes == old(port.writes)
      // bytes are only taken from the front of the line, and none are lost
      ensures |port.incoming| <= |old(port.incoming)|
      ensures port.incoming == old(port.incoming)[|old(port.incoming)| - |port.incoming|..]
      ensures r.Ok? ==>
        var stream := old(buffer) + old(port.incoming);
        var i := Find(stream, term);
        i >= 0 && r.value == stream[..i] && buffer + port.incoming == stream[i + |term|..]
      ensures r.Ok? ==>
        old(buffer) + old(port.incoming)[..|old(port.incoming)| - |port.incoming|] == r.value + term + buffer
      ensures r.Ok? && |term| > 0 ==> !Contains(r.value, term)
      ensures Contains(old(buffer), term) ==> r.Ok? && port.incoming == old(port.incoming)
      ensures r.Err? ==>
        r.error == Timeout && buffer + port.incoming == old(buffer) + old(port.incoming)
    {
      ghost var b0, in0 := buffer, port.incoming;
      var filled;
      ghost var consumed;
      filled, consumed := Fill(term);
      RecvKept(b0, in0, consumed);
      if !filled {
        r := Err(Timeout);
        return;
      }
      var chunk := Cut(term, b0, in0, consumed);
      r := Ok(chunk);
    }

    /** The end of `recv`: cuts the buffer, which holds `term`, at its first occurrence. The
        buffer is the old buffer `b0` followed by the first `consumed` bytes of the line `in0`. */
    method Cut(term: seq<byte>, ghost b0: seq<byte>, ghost in0: seq<byte>, ghost consumed: nat)
      returns (chunk: seq<byte>)
      requires Valid() && consumed <= |in0| && Contains(buffer, term)
      requires buffer == b0 + in0[..consumed] && port.incoming == in0[consumed..]
      modifies this`buffer
      ensures Valid()
      ensures var stream := b0 + in0;
        var i := Find(stream, term);
        i >= 0 && chunk == stream[..i] && buffer + port.incoming == stream[i + |term|..]
      ensures b0 + in0[..|in0| - |port.incoming|] == chunk + term + buffer
      ensures |term| > 0 ==> !Contains(chunk, term)
    {
      var idx := Find(buffer, term);
      chunk := buffer[..idx];
      buffer := buffer[idx + |term|..];
      RecvOk(b0, in0, consumed, term, chunk, buffer, port.incoming);
    }

    /** The reading loop of `recv`: reads one byte at a time into the buffer until it holds `term`,
        or gives up once the read budget is spent. */
    method Fill(term: seq<byte>) returns (filled: bool, ghost consumed: nat)
      requires Valid()
      modifies this`buffer, port
      ensures Valid()
      ensures port.sent == old(port.sent) && port.writes == old(port.writes)
      ensures consumed <= |old(port.incoming)|
      ensures buffer == old(buffer) + old(port.incoming)[..consumed]
      ensures port.incoming == old(port.incoming)[consumed..]
      ensures filled ==> Contains(buffer, term)
      ensures Contains(old(buffer), term) ==> filled && consumed == 0
    {
      var readCount := 0;
      consumed := 0;
      while !Contains(buffer, term)
        invariant Valid()
        invariant port.sent == old(port.sent) && port.writes == old(port.writes)
        invariant readCount <= budget
        invariant consumed <= |old(port.incoming)|
        invariant buffer == old(buffer) + old(port.incoming)[..consumed]
        invariant port.incoming == old(port.incoming)[consumed..]
        invariant Contains(old(buffer), term) ==> consumed == 0
        decreases budget - readCount
      {
        var b := port.Read();
        SplitAt(old(port.incoming), consumed, b, port.incoming);
        AppendAssoc(old(buffer), old(port.incoming)[..consumed], b);
        buffer := buffer + b;
        consumed := consumed + |b|;
        readCount := readCount + 1;
        if readCount > budget {
          return false, consumed;
        }
      }
      filled := true;
    }

    /** `enter_raw_mode`: sends CTRL-A and waits for the raw REPL banner. Everything after the first
        RAW_BANNER stays to be read. */
    method EnterRawMode() returns (o: Outcome)
      requires Valid()
      modifies this`buffer, port
      ensures Valid()
      ensures port.sent == old(port.sent) + [CTRL_A]
      ensures o.Done? ==>
        var stream := old(buffer) + old(port.incoming);
        var i := Find(stream, RAW_BANNER);
        i >= 0 && buffer + port.incoming == stream[i + |RAW_BANNER|..]
      ensures o.Failed? ==>
        o.error == Timeout && buffer + port.incoming == old(buffer) + old(port.incoming)
      ensures Contains(old(buffer), RAW_BANNER) ==> o.Done? && port.incoming == old(port.incoming)
    {
      Send([CTRL_A]);
      var r := Recv(RAW_BANNER);
      o := if r.Ok? then Done else Failed(r.error);
    }

    /** `exit_raw_mode`: sends CTRL-B and waits for `OK`. Everything after the first
        RAW_OK stays to be read. */
    method ExitRawMode() returns (o: Outcome)
      requires Valid()
      modifies this`buffer, port
      ensures Valid()
      ensures port.sent == old(port.sent) + [CTRL_B]
      ensures o.Done? ==>
        var stream := old(buffer) + old(port.incoming);
        var i := Find(stream, RAW_OK);
        i >= 0 && buffer + port.incoming == stream[i + |RAW_OK|..]
      ensures o.Failed? ==>
        o.error == Timeout && buffer + port.incoming == old(buffer) + old(port.incoming)
      ensures Contains(old(buffer), RAW_OK) ==> o.Done? && port.incoming == old(port.incoming)
    {
      Send([CTRL_B]);
      var r := Recv(RAW_OK);
      o := if r.Ok? then Done else Failed(r.error);
    }

    /** `enter_paste_mode`: sends CTRL-E. */
    method EnterPasteMode()
      requires Valid()
      modifies port
      ensures Valid()
      ensures port.sent == old(port.sent) + [CTRL_E] && port.incoming == old(port.incoming)
    {
      Send([CTRL_E]);
    }

    /** `exit_paste_mode`: sends CTRL-D, which makes the device run what was pasted. */
    method ExitPasteMode()
      requires Valid()
      modifies port
      ensures Valid()
      ensures port.sent == old(port.sent) + [CTRL_D] && port.incoming == old(port.incoming)
    {
      Send([CTRL_D]);
    }

    /** `__call__`: sends `cmd` as one line in paste mode and returns what the device printed
        before `term`, without the echo of the line when one is expected. */
    method Call(cmd: string, term: seq<byte>, expectEcho: bool) returns (r: Result<string>)
      requires Valid()
      modifies this`buffer, port
      ensures Valid()
      ensures !IsAscii(cmd) ==>
        r == Err(Encoding) && port.sent == old(port.sent) &&
        buffer == old(buffer) && port.incoming == old(port.incoming)
      ensures IsAscii(cmd) ==> port.sent == old(port.sent) + Frame(cmd)
      ensures IsAscii(cmd) ==>
        var stream := old(buffer) + old(port.incoming);
        var i := Find(stream, term);
        (r == Err(Timeout) && buffer + port.incoming == stream) ||
        (i >= 0 && r == Interpret(stream[..i], Line(cmd), expectEcho) &&
         buffer + port.incoming == stream[i + |term|..])
    {
      if !IsAscii(cmd) {
        return Err(Encoding);
      }
      SendFrame(cmd);
      var reply := Recv(term);
      if reply.Err? {
        return Err(reply.error);
      }
      r := Interpret(reply.value, Line(cmd), expectEcho);
    }

    /** The sending half of `__call__`: the line, CR LF terminated, inside paste mode. */
    method SendFrame(cmd: string)
      requires Valid() && IsAscii(cmd)
      modifies port
      ensures Valid()
      ensures port.sent == old(port.sent) + Frame(cmd) && port.incoming == old(port.incoming)
    {
      var line := Line(cmd);
      EnterPasteMode();
      Send(line);
      ExitPasteMode();
      AppendAssoc(old(port.sent), [CTRL_E], line);
      AppendAssoc(old(port.sent), [CTRL_E] + line, [CTRL_D]);
    }

    /** `eval`: imports `uos` on the first call of the session, then runs `cmd`. The reply is
        returned as text; reading it as a Python literal is not part of this model. */
    method Eval(cmd: string) returns (r: Result<string>)
      requires Valid()
      modifies this`buffer, this`uosImported, port
      ensures Valid()
      ensures old(uosImported) ==> uosImported
      ensures r.Ok? ==> uosImported
      ensures old(uosImported) ==> port.sent == old(port.sent) + (if IsAscii(cmd) then Frame(cmd) else [])
      ensures !old(uosImported) && uosImported ==>
        port.sent == old(port.sent) + Frame(IMPORT_UOS) + (if IsAscii(cmd) then Frame(cmd) else [])
      ensures !uosImported ==> r.Err? && port.sent == old(port.sent) + Frame(IMPORT_UOS)
      // with the flag set, `eval` is one `__call__` of `cmd`
      ensures old(uosImported) ==> Answers(r, old(buffer) + old(port.incoming), cmd, buffer + port.incoming)
      // otherwise the import's reply comes first; only once it is read in full and is not an
      // error is the flag set and `cmd` run on what follows it
      ensures !old(uosImported) ==>
        var stream := old(buffer) + old(port.incoming);
        var i := Find(stream, DEFAULT_TERMINATOR);
        (!uosImported ==>
          (r == Err(Timeout) && buffer + port.incoming == stream) ||
          (i >= 0 && Interpret(stream[..i], Line(IMPORT_UOS), false) == r && r.Err? &&
           buffer + port.incoming == stream[i + |DEFAULT_TERMINATOR|..])) &&
        (uosImported ==>
          i >= 0 && Interpret(stream[..i], Line(IMPORT_UOS), false).Ok? &&
          Answers(r, stream[i + |DEFAULT_TERMINATOR|..], cmd, buffer + port.incoming))
    {
      if !uosImported {
        var imp := ImportUos();
        if imp.Err? {
          return Err(imp.error);
        }
        uosImported := true;
      }
      r := CallEcho(cmd);
    }

    /** `self("import uos", expect_echo=False)`, as `eval` runs it. */
    method ImportUos() returns (r: Result<string>)
      requires Valid()
      modifies this`buffer, port
      ensures Valid()
      ensures port.sent == old(port.sent) + Frame(IMPORT_UOS)
      ensures var stream := old(buffer) + old(port.incoming);
        var i := Find(stream, DEFAULT_TERMINATOR);
        (r == Err(Timeout) && buffer + port.incoming == stream) ||
        (i >= 0 && r == Interpret(stream[..i], Line(IMPORT_UOS), false) &&
         buffer + port.incoming == stream[i + |DEFAULT_TERMINATOR|..])
    {
      assert IsAscii(IMPORT_UOS);
      r := Call(IMPORT_UOS, DEFAULT_TERMINATOR, false);
    }

    /** `self(cmd)` with the default prompt and the echo expected, as `eval` runs it. */
    method CallEcho(cmd: string) returns (r: Result<string>)
      requires Valid()
      modifies this`buffer, port
      ensures Valid()
      ensures port.sent == old(port.sent) + (if IsAscii(cmd) then Frame(cmd) else [])
      ensures Answers(r, old(buffer) + old(port.incoming), cmd, buffer + port.incoming)
    {
      r := Call(cmd, DEFAULT_TERMINATOR, true);
    }

    /** The sending half of `ilistdir` once paste mode is entered: the loop, then CTRL-D. */
    method SendLoop(quoted: string)
      requires Valid() && IsAscii(quoted)
      modifies port
      ensures Valid() && IsAscii(ListLoop(quoted))
      ensures port.sent == old(port.sent) + Ascii(ListLoop(quoted)) + [CTRL_D]
      ensures port.incoming == old(port.incoming)
    {
      LoopAscii(quoted);
      var text := Ascii(ListLoop(quoted));
      Send(text);
      ExitPasteMode();
    }

    /** `ilistdir`: pastes the listing loop for the path written as `quoted` and cuts the item lines
        out of the reply with the header check as written. Paste mode is entered before the loop
        is encoded, so a non-ASCII path leaves CTRL-E sent. Reading each line as a Python tuple is
        not part of this model. */
    method Ilistdir(quoted: string) returns (r: Result<seq<seq<byte>>>)
      requires Valid()
      modifies this`buffer, port
      ensures Valid()
      ensures !IsAscii(quoted) ==>
        r == Err(Encoding) && port.sent == old(port.sent) + [CTRL_E] &&
        buffer == old(buffer) && port.incoming == old(port.incoming)
      ensures IsAscii(quoted) ==>
        IsAscii(ListLoop(quoted)) &&
        port.sent == old(port.sent) + ([CTRL_E] + Ascii(ListLoop(quoted)) + [CTRL_D])
      ensures IsAscii(quoted) ==>
        var stream := old(buffer) + old(port.incoming);
        var i := Find(stream, DEFAULT_TERMINATOR);
        (r == Err(Timeout) && buffer + port.incoming == stream) ||
        (i >= 0 && r == ItemLinesAsWritten(stream[..i]) &&
         buffer + port.incoming == stream[i + |DEFAULT_TERMINATOR|..])
    {
      EnterPasteMode();
      if !IsAscii(quoted) {
        return Err(Encoding);
      }
      SendLoop(quoted);
      AppendAssoc(old(port.sent), [CTRL_E], Ascii(ListLoop(quoted)));
      AppendAssoc(old(port.sent), [CTRL_E] + Ascii(ListLoop(quoted)), [CTRL_D]);
      var reply := Recv(DEFAULT_TERMINATOR);
      if reply.Err? {
        return Err(reply.error);
      }
      r := ItemLinesAsWritten(reply.value);
    }
  }
}
