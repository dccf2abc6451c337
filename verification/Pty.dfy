/** The pseudo-terminal line discipline (kernel/src/drivers/pty.rs). */
module Pty {
  import opened LittleEndian

  const BS: byte := 0x08
  const LF: byte := 0x0A
  const CR: byte := 0x0D
  const SP: byte := 0x20
  const CARET: byte := 0x5E

  /** The termios flags and control characters the line discipline looks at. */
  datatype Termios = Termios(icrnl: bool, igncr: bool, inlcr: bool, opost: bool, onlcr: bool,
                             isig: bool, icanon: bool, echo: bool, echoe: bool, echok: bool, echonl: bool,
                             vintr: byte, vquit: byte, vsusp: byte, verase: byte, vkill: byte, vwerase: byte,
                             veof: byte,
                             veol: byte, veol2: byte)

  const COOKED := Termios(true, false, false, true, true, true, true, true, true, true, false,
                          0x03, 0x1C, 0x1A, 0x7F, 0x15, 0x17, 0x04, 0, 0)

  // Output processing.

  function Expand(b: byte): seq<byte> {
    if b == LF then [CR, LF] else [b]
  }

  function Onlcr(data: seq<byte>): seq<byte> {
    if data == [] then [] else Expand(data[0]) + Onlcr(data[1..])
  }

  function Undo(out: seq<byte>): seq<byte> {
    if |out| >= 2 && out[0] == CR && out[1] == LF then [LF] + Undo(out[2..])
    else if out == [] then []
    else [out[0]] + Undo(out[1..])
  }

  lemma {:induction false} OnlcrConcat(a: seq<byte>, b: seq<byte>)
    ensures Onlcr(a + b) == Onlcr(a) + Onlcr(b)
  {
    if a == [] {
      assert a + b == b;
    } else {
      var all, rest := a + b, a[1..];
      OnlcrConcat(rest, b);
      assert all[1..] == rest + b && all[0] == a[0];
      assert Expand(a[0]) + (Onlcr(rest) + Onlcr(b)) == Expand(a[0]) + Onlcr(rest) + Onlcr(b);
    }
  }

  /** Translated output can be translated back: nothing is lost or confused. */
  lemma {:induction false} OnlcrUndone(data: seq<byte>)
    ensures Undo(Onlcr(data)) == data
  {
    if data != [] {
      OnlcrUndone(data[1..]);
      var rest := Onlcr(data[1..]);
      if data[0] == LF {
        assert ([CR, LF] + rest)[2..] == rest;
      } else {
        OnlcrStart(data[1..]);
        assert ([data[0]] + rest)[1..] == rest;
      }
    }
  }

  lemma OnlcrStart(data: seq<byte>)
    ensures Onlcr(data) != [] ==> Onlcr(data)[0] != LF
  {
  }

  // The terminal on the other side.

  /** The current line of a terminal. */
  datatype Term = Term(line: seq<byte>, cursor: nat)

  function Type(t: Term, b: byte): Term {
    if b == LF then Term([], 0)
    else if b == CR then Term(t.line, 0)
    else if b == BS then Term(t.line, if t.cursor > 0 then t.cursor - 1 else 0)
    else Term(if t.cursor < |t.line| then t.line[t.cursor := b] else t.line + [b], t.cursor + 1)
  }

  function Screen(stream: seq<byte>): Term {
    if |stream| == 0 then Term([], 0) else Type(Screen(stream[..|stream| - 1]), stream[|stream| - 1])
  }

  /** The line shows `text`, with the cursor behind it and blanks from there on. */
  ghost predicate Shows(t: Term, text: seq<byte>) {
    && t.cursor == |text| <= |t.line| && t.line[..t.cursor] == text
    && forall i :: t.cursor <= i < |t.line| ==> t.line[i] == SP
  }

  predicate Printable(b: byte) {
    0x20 <= b <= 0x7E
  }

  lemma ScreenNext(stream: seq<byte>, b: byte)
    ensures Screen(stream + [b]) == Type(Screen(stream), b)
  {
    assert (stream + [b])[..|stream|] == stream;
  }

  lemma TypeShows(t: Term, text: seq<byte>, b: byte)
    requires Shows(t, text) && Printable(b)
    ensures Shows(Type(t, b), text + [b])
  {
  }

  lemma RuboutShows(t: Term, text: seq<byte>)
    requires Shows(t, text) && |text| > 0
    ensures Shows(Type(Type(Type(t, BS), SP), BS), text[..|text| - 1])
  {
  }

  // Editing a line.

  /** The text without its trailing spaces, and without its last word. */
  function DropSpaces(s: seq<byte>): seq<byte> {
    if |s| > 0 && s[|s| - 1] == SP then DropSpaces(s[..|s| - 1]) else s
  }

  function DropWord(s: seq<byte>): seq<byte> {
    if |s| > 0 && s[|s| - 1] != SP then DropWord(s[..|s| - 1]) else s
  }

  /** Word erase removes exactly the last word and the spaces after it. */
  lemma {:induction false} DropSpacesIs(s: seq<byte>)
    ensures DropSpaces(s) <= s && (DropSpaces(s) != [] ==> DropSpaces(s)[|DropSpaces(s)| - 1] != SP)
    ensures forall i :: |DropSpaces(s)| <= i < |s| ==> s[i] == SP
  {
    if |s| > 0 && s[|s| - 1] == SP {
      DropSpacesIs(s[..|s| - 1]);
    }
  }

  lemma {:induction false} DropWordIs(s: seq<byte>)
    ensures DropWord(s) <= s && (DropWord(s) != [] ==> DropWord(s)[|DropWord(s)| - 1] == SP)
    ensures forall i :: |DropWord(s)| <= i < |s| ==> s[i] != SP
  {
    if |s| > 0 && s[|s| - 1] != SP {
      DropWordIs(s[..|s| - 1]);
    }
  }

  /** What a key does in cooked mode to the line being typed, and what it sends to the reader. */
  predicate IsSignal(b: byte) {
    b == COOKED.vintr || b == COOKED.vquit || b == COOKED.vsusp
  }

  predicate IsNewline(b: byte) {
    b == LF || b == CR
  }

  function Edit(line: seq<byte>, b: byte): seq<byte> {
    if IsSignal(b) || b == COOKED.vkill || b == COOKED.veof || IsNewline(b) then []
    else if b == COOKED.verase then (if line == [] then [] else line[..|line| - 1])
    else if b == COOKED.vwerase then DropWord(DropSpaces(line))
    else line + [b]
  }

  function Submit(line: seq<byte>, b: byte): seq<byte> {
    if b == COOKED.veof then line else if IsNewline(b) then line + [LF] else []
  }

  /** The part of the terminal's line that was already submitted with end-of-file. */
  function Kept(flushed: seq<byte>, line: seq<byte>, b: byte): seq<byte> {
    if b == COOKED.veof then flushed + line else if IsSignal(b) || IsNewline(b) then [] else flushed
  }

  predicate Ordinary(b: byte) {
    || Printable(b) || IsSignal(b) || IsNewline(b)
    || b == COOKED.verase || b == COOKED.vkill || b == COOKED.vwerase || b == COOKED.veof
  }

  function SignalsFor(b: byte): seq<nat> {
    if b == COOKED.vintr then [2] else if b == COOKED.vquit then [3] else if b == COOKED.vsusp then [20] else []
  }

  predicate IsRaw(t: Termios) {
    !t.icrnl && !t.igncr && !t.inlcr && !t.isig && !t.icanon
  }

  function EditAll(line: seq<byte>, data: seq<byte>): seq<byte> {
    if |data| == 0 then line else Edit(EditAll(line, data[..|data| - 1]), data[|data| - 1])
  }

  function SubmitAll(line: seq<byte>, data: seq<byte>): seq<byte> {
    if |data| == 0 then [] else
      SubmitAll(line, data[..|data| - 1]) + Submit(EditAll(line, data[..|data| - 1]), data[|data| - 1])
  }

  lemma Associative(a: seq<byte>, b: seq<byte>, c: seq<byte>)
    ensures a + b + c == a + (b + c)
  {
  }

  lemma AllNext(line: seq<byte>, data: seq<byte>, i: nat)
    requires i < |data|
    ensures EditAll(line, data[..i + 1]) == Edit(EditAll(line, data[..i]), data[i])
    ensures SubmitAll(line, data[..i + 1]) == SubmitAll(line, data[..i]) + Submit(EditAll(line, data[..i]), data[i])
    ensures data[..i + 1] == data[..i] + [data[i]]
  {
    assert data[..i + 1][..i] == data[..i];
  }

  class Pty {
    var termios: Termios
    var lineBuf: seq<byte>
    var slaveRx: seq<byte>
    var masterRx: seq<byte>
    var uart: seq<byte>
    var signals: seq<nat>
    const console: bool
    ghost var flushed: seq<byte>
    ghost var echoed: seq<byte>

    /** The UART gets the echo with CR before LF; the line being edited has no newline. */
    ghost predicate Valid()
      reads this
    {
      uart == (if console then Onlcr(echoed) else []) && LF !in lineBuf
    }

    /** The terminal shows what was typed on this line. */
    ghost predicate InSync()
      reads this
    {
      Shows(Screen(masterRx), flushed + lineBuf)
    }

    constructor (console: bool)
      ensures termios == COOKED && lineBuf == [] && slaveRx == [] && masterRx == [] && flushed == []
      ensures Valid() && InSync() && this.console == console
    {
      termios, lineBuf, slaveRx, masterRx, uart, signals := COOKED, [], [], [], [], [];
      flushed, echoed := [], [];
      this.console := console;
    }

    /** Echoes to the master, and on the console to the UART. */
    method EchoByte(b: byte)
      requires Valid()
      modifies `masterRx, `uart, `echoed
      ensures Valid() && masterRx == old(masterRx) + [b] && echoed == old(echoed) + [b]
      ensures Screen(masterRx) == Type(Screen(old(masterRx)), b)
    {
      if console {
        if b == LF {
          uart := uart + [CR];
        }
        uart := uart + [b];
      }
      OnlcrNext(echoed, b);
      ScreenNext(masterRx, b);
      masterRx, echoed := masterRx + [b], echoed + [b];
    }

    /** Wipes the last character of `text` off the terminal. */
    method Rubout(ghost text: seq<byte>)
      requires Valid() && |text| > 0
      modifies `masterRx, `uart, `echoed
      ensures Valid() && (old(Shows(Screen(masterRx), text)) ==> Shows(Screen(masterRx), text[..|text| - 1]))
    {
      ghost var t := Screen(masterRx);
      EchoByte(BS);
      EchoByte(SP);
      EchoByte(BS);
      if Shows(t, text) {
        RuboutShows(t, text);
      }
    }

    /** Echoes `^` and a letter and ends the line. */
    method EchoSignal(letter: byte)
      requires Valid()
      modifies `masterRx, `uart, `echoed
      ensures Valid() && Shows(Screen(masterRx), [])
    {
      EchoByte(CARET);
      EchoByte(letter);
      EchoByte(LF);
    }

    /** The signal characters; the line is dropped. */
    method Signal(letter: byte, sig: nat)
      requires Valid()
      modifies `masterRx, `uart, `echoed, `signals, `lineBuf, `flushed
      ensures Valid() && InSync() && lineBuf == [] && flushed == [] && signals == old(signals) + [sig]
    {
      EchoSignal(letter);
      signals := signals + [sig];
      lineBuf, flushed := [], [];
    }

    method EraseChar()
      requires Valid()
      modifies `masterRx, `uart, `echoed, `lineBuf
      ensures Valid() && lineBuf == if old(lineBuf) == [] then [] else old(lineBuf)[..|old(lineBuf)| - 1]
      ensures termios.echo && termios.echoe && old(InSync()) ==> InSync()
    {
      if lineBuf != [] {
        ghost var text := flushed + lineBuf;
        lineBuf := lineBuf[..|lineBuf| - 1];
        assert text[..|text| - 1] == flushed + lineBuf;
        if termios.echo && termios.echoe {
          Rubout(text);
        }
      }
    }

    method KillLine()
      requires Valid()
      modifies `masterRx, `uart, `echoed, `lineBuf
      ensures Valid() && lineBuf == []
      ensures termios.echo && termios.echok && old(InSync()) ==> InSync()
    {
      ghost var line := lineBuf;
      var count := |lineBuf|;
      lineBuf := [];
      if termios.echo && termios.echok {
        for i := 0 to count
          invariant Valid() && lineBuf == []
          invariant old(InSync()) ==> Shows(Screen(masterRx), flushed + line[..count - i])
        {
          ghost var text := flushed + line[..count - i];
          assert text[..|text| - 1] == flushed + line[..count - (i + 1)];
          Rubout(text);
        }
      }
    }

    /** One step of word erase. */
    method DropLast()
      requires Valid() && |lineBuf| > 0
      modifies `masterRx, `uart, `echoed, `lineBuf
      ensures Valid() && lineBuf == old(lineBuf)[..|old(lineBuf)| - 1]
      ensures termios.echo && old(InSync()) ==> InSync()
    {
      ghost var text := flushed + lineBuf;
      lineBuf := lineBuf[..|lineBuf| - 1];
      assert text[..|text| - 1] == flushed + lineBuf;
      if termios.echo {
        Rubout(text);
      }
    }

    method EraseWord()
      requires Valid()
      modifies `masterRx, `uart, `echoed, `lineBuf
      ensures Valid() && lineBuf == DropWord(DropSpaces(old(lineBuf)))
      ensures termios.echo && old(InSync()) ==> InSync()
    {
      while lineBuf != [] && lineBuf[|lineBuf| - 1] == SP
        invariant Valid() && DropSpaces(lineBuf) == DropSpaces(old(lineBuf))
        invariant termios.echo && old(InSync()) ==> InSync()
        decreases |lineBuf|
      {
        DropLast();
      }
      while lineBuf != [] && lineBuf[|lineBuf| - 1] != SP
        invariant Valid() && DropWord(lineBuf) == DropWord(DropSpaces(old(lineBuf)))
        invariant termios.echo && old(InSync()) ==> InSync()
        decreases |lineBuf|
      {
        DropLast();
      }
    }

    /** Echoes a character behind `text`, or starts a new line. */
    method EchoTyped(b: byte, ghost text: seq<byte>)
      requires Valid()
      modifies `masterRx, `uart, `echoed
      ensures Valid()
      ensures Printable(b) && old(Shows(Screen(masterRx), text)) ==> Shows(Screen(masterRx), text + [b])
      ensures b == LF ==> Shows(Screen(masterRx), [])
    {
      ghost var t := Screen(masterRx);
      EchoByte(b);
      if Printable(b) && Shows(t, text) {
        TypeShows(t, text, b);
      }
    }

    /** An ordinary character, or one that ends the line. */
    method TakeByte(b: byte)
      requires Valid()
      modifies `masterRx, `uart, `echoed, `lineBuf, `slaveRx, `flushed
      ensures Valid()
      ensures termios == COOKED && b != LF ==>
                lineBuf == old(lineBuf) + [b] && slaveRx == old(slaveRx) && flushed == old(flushed)
      ensures termios == COOKED && b == LF ==>
                lineBuf == [] && slaveRx == old(slaveRx) + old(lineBuf) + [LF] && flushed == []
      ensures termios == COOKED && (b == LF || Printable(b)) && old(InSync()) ==> InSync()
    {
      ghost var text := flushed + lineBuf;
      if termios.echo || (termios.echonl && b == LF) {
        EchoTyped(b, text);
      }
      assert text + [b] == flushed + (lineBuf + [b]);
      if b == LF || (termios.veol != 0 && b == termios.veol) || (termios.veol2 != 0 && b == termios.veol2) {
        slaveRx := slaveRx + (lineBuf + [b]);
        lineBuf, flushed := [], [];
      } else {
        lineBuf := lineBuf + [b];
      }
    }

    /** Canonical mode after signals. */
    method Canonical(b: byte)
      requires Valid()
      modifies `masterRx, `uart, `echoed, `lineBuf, `slaveRx, `flushed
      ensures Valid()
      ensures termios == COOKED && !IsSignal(b) && b != CR ==> lineBuf == Edit(old(lineBuf), b)
      ensures termios == COOKED && !IsSignal(b) && b != CR ==> slaveRx == old(slaveRx) + Submit(old(lineBuf), b)
      ensures termios == COOKED && !IsSignal(b) && b != CR ==> flushed == Kept(old(flushed), old(lineBuf), b)
      ensures termios == COOKED && !IsSignal(b) && b != CR && Ordinary(b) && old(InSync()) ==> InSync()
    {
      if b == termios.verase {
        EraseChar();
      } else if b == termios.vkill {
        KillLine();
      } else if b == termios.vwerase {
        EraseWord();
      } else if b == termios.veof {
        slaveRx := slaveRx + lineBuf;
        flushed := flushed + lineBuf;
        lineBuf := [];
      } else {
        TakeByte(b);
      }
    }

    /** One byte from the keyboard side. */
    method InputByte(input: byte)
      requires Valid()
      modifies this
      ensures Valid() && termios == old(termios)
      ensures termios == COOKED ==>
                lineBuf == Edit(old(lineBuf), input) && slaveRx == old(slaveRx) + Submit(old(lineBuf), input)
      ensures termios == COOKED ==>
                flushed == Kept(old(flushed), old(lineBuf), input) && signals == old(signals) + SignalsFor(input)
      ensures termios == COOKED && Ordinary(input) && old(InSync()) ==> InSync()
      ensures IsRaw(termios) ==> lineBuf == old(lineBuf) && slaveRx == old(slaveRx) + [input] && signals == old(signals)
    {
      var b := input;
      if termios.icrnl && b == CR {
        b := LF;
      }
      if termios.igncr && b == CR {
        return;
      }
      if termios.inlcr && b == LF {
        b := CR;
      }
      if termios.isig {
        if b == termios.vintr {
          Signal(0x43, 2);
          return;
        }
        if b == termios.vquit {
          Signal(0x5C, 3);
          return;
        }
        if b == termios.vsusp {
          Signal(0x5A, 20);
          return;
        }
      }
      if termios.icanon {
        Canonical(b);
      } else {
        if termios.echo {
          EchoByte(b);
        }
        slaveRx := slaveRx + [b];
      }
    }

    /** A write on the master side: the bytes go through the discipline one by one. */
    method MasterWrite(data: seq<byte>)
      requires Valid()
      modifies this
      ensures Valid() && termios == old(termios)
      ensures termios == COOKED ==>
                lineBuf == EditAll(old(lineBuf), data) && slaveRx == old(slaveRx) + SubmitAll(old(lineBuf), data)
      ensures termios == COOKED && (forall i :: 0 <= i < |data| ==> Ordinary(data[i])) && old(InSync()) ==> InSync()
      ensures IsRaw(termios) ==> lineBuf == old(lineBuf) && slaveRx == old(slaveRx) + data
    {
      for i := 0 to |data|
        invariant Valid() && termios == old(termios)
        invariant termios == COOKED ==> lineBuf == EditAll(old(lineBuf), data[..i])
        invariant termios == COOKED ==> slaveRx == old(slaveRx) + SubmitAll(old(lineBuf), data[..i])
        invariant termios == COOKED && (forall j :: 0 <= j < |data| ==> Ordinary(data[j])) && old(InSync()) ==> InSync()
        invariant IsRaw(termios) ==> lineBuf == old(lineBuf) && slaveRx == old(slaveRx) + data[..i]
      {
        AllNext(old(lineBuf), data, i);
        Associative(old(slaveRx), SubmitAll(old(lineBuf), data[..i]), Submit(lineBuf, data[i]));
        Associative(old(slaveRx), data[..i], [data[i]]);
        InputByte(data[i]);
      }
      assert data[..|data|] == data;
    }

    /** Output processing. */
    method ProcessOutput(data: seq<byte>) returns (out: seq<byte>)
      ensures out == if termios.opost && termios.onlcr then Onlcr(data) else data
    {
      if !termios.opost {
        return data;
      }
      out := [];
      for i := 0 to |data|
        invariant out == if termios.onlcr then Onlcr(data[..i]) else data[..i]
      {
        assert data[..i + 1] == data[..i] + [data[i]];
        OnlcrNext(data[..i], data[i]);
        if termios.onlcr && data[i] == LF {
          out := out + [CR];
        }
        out := out + [data[i]];
      }
      assert data[..|data|] == data;
    }

    method SlaveWrite(data: seq<byte>)
      requires Valid()
      modifies `masterRx
      ensures Valid() && masterRx == old(masterRx) + if termios.opost && termios.onlcr then Onlcr(data) else data
    {
      var processed := ProcessOutput(data);
      masterRx := masterRx + processed;
    }
  }

  lemma OnlcrNext(data: seq<byte>, b: byte)
    ensures Onlcr(data + [b]) == Onlcr(data) + Expand(b)
  {
    OnlcrConcat(data, [b]);
    assert Onlcr([b]) == Expand(b) + Onlcr([b][1..]);
  }
}
