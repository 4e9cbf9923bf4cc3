/** The helpers of the file-system test shell: the usage table and
    help(cmd), how a line read by the command loop is classified, the
    buffers the write and writeln commands hand to the WRITE system call,
    and the byte display used when a file is read back. Console output is
    modelled as the string that would be printed. */
module Shell {
  import opened JavaTypes

  // --------------------------------------------------- help(cmd)

  /** The usage lines, in the order help(cmd) searches them. */
  const HelpInfo: seq<string> := [
    "help",
    "quit",
    "format",
    "cd pathname",
    "pwd",
    "create pathname",
    "read pathname",
    "write pathname data",
    "writeln pathname",
    "rm pathname",
    "mkdir pathname",
    "rmdir pathname",
    "ln oldpath newpath",
    "readlink pathname",
    "ls [ dirname ]"
  ]

  /** The first usage line at or after `from` that starts with cmd. */
  function FirstUsage(cmd: string, from: nat): (i: Option<nat>)
    requires from <= |HelpInfo|
    ensures i.Some? ==> from <= i.value < |HelpInfo| && cmd <= HelpInfo[i.value]
    ensures forall j :: from <= j < |HelpInfo| && (i.None? || j < i.value) ==> !(cmd <= HelpInfo[j])
    decreases |HelpInfo| - from
  {
    if from == |HelpInfo| then None
    else if cmd <= HelpInfo[from] then Some(from)
    else FirstUsage(cmd, from + 1)
  }

  /** What help(cmd) prints. */
  function HelpMessage(cmd: string): string {
    match FirstUsage(cmd, 0)
    case Some(i) => "usage: " + HelpInfo[i] + "\n"
    case None => "unknown command '" + cmd + "'\n"
  }

  /** help(cmd): the usage of the first command line that starts with cmd,
      or the unknown-command message when none does. */
  method Help(cmd: string) returns (msg: string)
    ensures msg == HelpMessage(cmd)
  {
    var i := 0;
    while i < |HelpInfo|
      invariant i <= |HelpInfo| && FirstUsage(cmd, i) == FirstUsage(cmd, 0)
    {
      if cmd <= HelpInfo[i] {
        return "usage: " + HelpInfo[i] + "\n";
      }
      i := i + 1;
    }
    return "unknown command '" + cmd + "'\n";
  }

  /** help(cmd) prints a usage line exactly when some usage line starts
      with cmd, and then it is the first such line. */
  lemma HelpMessageMeaning(cmd: string)
    ensures (forall i :: 0 <= i < |HelpInfo| ==> !(cmd <= HelpInfo[i])) <==>
      HelpMessage(cmd) == "unknown command '" + cmd + "'\n"
    ensures forall i ::
      (0 <= i < |HelpInfo| && cmd <= HelpInfo[i] && forall j :: 0 <= j < i ==> !(cmd <= HelpInfo[j])) ==>
      HelpMessage(cmd) == "usage: " + HelpInfo[i] + "\n"
  {
    var r := FirstUsage(cmd, 0);
    if r.Some? {
      var m := HelpMessage(cmd);
      assert m[1] == 's' != "unknown command '"[1];
    }
  }

  // --------------------------------------------------- the command loop

  /** What the command loop does with a line it has read. */
  datatype LineAction =
    | EndOfInput            // readLine gave null: the shell returns
    | Skip                  // nothing to do
    | EchoComment(text: string)   // a "//" comment, echoed from a script
    | Command(text: string)       // the trimmed line is executed

  /** The classification at the top of the command loop: the line is
      trimmed; an empty line and a line opening a block comment are skipped; a "//" comment
      is echoed when reading a script and skipped otherwise; anything else is
      a command. */
  function Classify(line: Option<string>, fromFile: bool): (a: LineAction)
    ensures a == EndOfInput <==> line.None?
    ensures a.EchoComment? <==> line.Some? && fromFile && "//" <= Trim(line.value)
    ensures a.Command? <==>
      (line.Some? && Trim(line.value) != [] && !("//" <= Trim(line.value)) && !("/*" <= Trim(line.value)))
    ensures (a.EchoComment? || a.Command?) ==> a.text == Trim(line.value)
  {
    if line.None? then EndOfInput
    else
      var t := Trim(line.value);
      if |t| == 0 then Skip
      else if "//" <= t then (if fromFile then EchoComment(t) else Skip)
      else if "/*" <= t then Skip
      else Command(t)
  }

  /** Reading a line again after trimming it changes nothing, and a command
      is a non-empty line with no blank at either end, so its first token
      exists and starts at its first character. */
  lemma ClassifyTrimmed(s: string, fromFile: bool)
    ensures Classify(Some(Trim(s)), fromFile) == Classify(Some(s), fromFile)
    ensures Classify(Some(s), fromFile).Command? ==>
      var t := Classify(Some(s), fromFile).text;
      t != [] && !IsTrimmed(t[0]) && !IsTrimmed(t[|t| - 1])
  {
    TrimIdempotent(s);
    TrimShape(s);
  }

  // --------------------------------------------------- write pathname data

  /** info.indexOf(c, from), with None for -1. */
  function IndexOf(s: string, c: char, from: nat): (i: Option<nat>)
    ensures i.Some? ==> from <= i.value < |s| && s[i.value] == c
    ensures forall k :: from <= k < |s| && (i.None? || k < i.value) ==> s[k] != c
    decreases |s| - from
  {
    if from >= |s| then None
    else if s[from] == c then Some(from)
    else IndexOf(s, c, from + 1)
  }

  /** Where writeTest's payload starts in the command line: after the
      second space; at the end of the line when it has one space; at 0 when
      it has none. */
  function PayloadStart(info: string): (p: nat)
    ensures p <= |info|
  {
    match IndexOf(info, ' ', 0)
    case None => 0
    case Some(first) =>
      match IndexOf(info, ' ', first + 1)
      case None => |info|
      case Some(second) => second + 1
  }

  /** The number of spaces in s. */
  function Spaces(s: string): nat {
    multiset(s)[' ']
  }

  lemma NoSpaces(s: string)
    requires forall k :: 0 <= k < |s| ==> s[k] != ' '
    ensures Spaces(s) == 0
  {
    assert ' ' !in s;
  }

  /** Spaces around a single space: a, then ' ', then b. */
  lemma SpacesAround(a: string, b: string)
    ensures Spaces(a + [' '] + b) == Spaces(a) + 1 + Spaces(b)
  {
    assert multiset(a + [' '] + b) == multiset(a) + multiset{' '} + multiset(b);
  }

  /** PayloadStart in terms of the spaces of the line. */
  lemma PayloadStartMeaning(info: string)
    ensures Spaces(info) == 0 ==> PayloadStart(info) == 0
    ensures Spaces(info) == 1 ==> PayloadStart(info) == |info|
    ensures Spaces(info) >= 2 ==>
      var p := PayloadStart(info);
      0 < p && info[p - 1] == ' ' && Spaces(info[..p]) == 2
  {
    var i1 := IndexOf(info, ' ', 0);
    if i1.None? {
      NoSpaces(info);
    } else {
      var i2 := IndexOf(info, ' ', i1.value + 1);
      if i2.None? {
        OneSpace(info, i1.value);
      } else {
        TwoSpaces(info, i1.value, i2.value);
      }
    }
  }

  lemma OneSpace(info: string, first: nat)
    requires IndexOf(info, ' ', 0) == Some(first) && IndexOf(info, ' ', first + 1).None?
    ensures Spaces(info) == 1
  {
    var a := info[..first];
    var b := info[first + 1..];
    NoSpaces(a);
    NoSpaces(b);
    assert info == a + [' '] + b;
    SpacesAround(a, b);
  }

  lemma TwoSpaces(info: string, first: nat, second: nat)
    requires IndexOf(info, ' ', 0) == Some(first) && IndexOf(info, ' ', first + 1) == Some(second)
    ensures Spaces(info[..second + 1]) == 2 && Spaces(info) >= 2
  {
    var a := info[..first];
    var b := info[first + 1..second];
    NoSpaces(a);
    NoSpaces(b);
    var front := info[..second + 1];
    assert front == a + [' '] + (b + [' ']);
    SpacesAround(a, b + [' ']);
    SpacesAround(b, []);
    assert b + [' '] + [] == b + [' '];
    assert info == front + info[second + 1..];
    assert multiset(info) == multiset(front) + multiset(info[second + 1..]);
  }

  /** For "write <file> <data>" with a file name free of spaces, the payload
      is exactly <data>, spaces and all. */
  lemma WriteCommandPayload(fname: string, data: string)
    requires forall k :: 0 <= k < |fname| ==> fname[k] != ' '
    ensures var info := "write " + fname + " " + data;
      PayloadStart(info) == 7 + |fname| && info[PayloadStart(info)..] == data
  {
    var info := "write " + fname + " " + data;
    assert info[5] == ' ';
    var first := IndexOf(info, ' ', 0);
    assert first == Some(5);
    assert info[6 + |fname|] == ' ';
    forall k | 6 <= k < 6 + |fname| ensures info[k] != ' ' {
      assert info[k] == fname[k - 6];
    }
    assert IndexOf(info, ' ', 6) == Some(6 + |fname|);
    assert info[7 + |fname|..] == data;
  }

  function Max(a: int, b: int): int {
    if a >= b then a else b
  }

  /** The buffer writeTest passes to Library.write: max(blockSize, payload
      length) bytes, the payload's (byte) casts first, zeros after. */
  method WriteTestBuffer(info: string, blockSize: nat) returns (buf: array<byte>)
    ensures fresh(buf)
    ensures var p := PayloadStart(info);
      && buf.Length == Max(blockSize, |info| - p)
      && buf[..] == Encode(info[p..]) + Zeros(buf.Length - (|info| - p))
  {
    var p := PayloadStart(info);
    buf := new byte[Max(blockSize, |info| - p)](_ => 0);
    var i := 0;
    ghost var p0 := p;
    while p < |info|
      invariant p0 <= p <= |info| && i == p - p0
      invariant buf[..i] == Encode(info[p0..p])
      invariant forall k :: i <= k < buf.Length ==> buf[k] == 0
    {
      buf[i] := CharToByte(info[p]);
      assert buf[..i + 1] == buf[..i] + [buf[i]];
      i := i + 1;
      p := p + 1;
    }
    assert buf[..] == buf[..i] + buf[i..];
    assert buf[i..] == Zeros(buf.Length - i);
  }

  // --------------------------------------------------- writeln pathname

  /** The buffer length after storing n bytes in a buffer that starts at
      len bytes and doubles whenever a byte would not fit. */
  function Grow(len: nat, n: nat): (g: nat)
    requires len > 0
    ensures len <= g && n <= g
    decreases n - len
  {
    if n <= len then len else Grow(2 * len, n)
  }

  /** Storing more bytes, up to the current length, never grows the buffer. */
  lemma {:induction false} GrowSame(len: nat, n: nat, m: nat)
    requires len > 0 && n <= m <= Grow(len, n)
    ensures Grow(len, m) == Grow(len, n)
    decreases n - len
  {
    if n > len {
      GrowSame(2 * len, n, m);
    }
  }

  /** One byte past a full buffer doubles it. */
  lemma {:induction false} GrowNext(len: nat, n: nat)
    requires len > 0 && Grow(len, n) == n
    ensures Grow(len, n + 1) == 2 * n
    decreases n - len
  {
    if n > len {
      GrowNext(2 * len, n);
    }
  }

  /** The length is the start length doubled as often as needed and no
      more: half of a grown length would not hold n bytes. */
  lemma {:induction false} GrowMinimal(len: nat, n: nat)
    requires len > 0
    ensures Grow(len, n) == len || (Grow(len, n) % 2 == 0 && Grow(len, n) / 2 < n)
    decreases n - len
  {
    if n > len {
      GrowMinimal(2 * len, n);
    }
  }

  /** writeLines' reading, from the bytes stored so far: the bytes it ends
      with and the number of lines it takes from the input. A line "." or
      the end of input ends it; after a line that leaves the buffer exactly
      full it stops without the line's '\n'. */
  function Collect(lines: seq<string>, blockSize: nat, data: seq<byte>): (res: (seq<byte>, nat))
    requires blockSize > 0
    ensures res.1 <= |lines|
    decreases |lines|
  {
    if lines == [] then (data, 0)
    else if lines[0] == "." then (data, 1)
    else
      var d := data + Encode(lines[0]);
      if |d| >= Grow(blockSize, |d|) then (d, 1)
      else
        var r := Collect(lines[1..], blockSize, d + [10]);
        (r.0, 1 + r.1)
  }

  /** The lines as a text: each line's bytes followed by '\n'. */
  function Joined(lines: seq<string>): seq<byte> {
    if lines == [] then [] else Encode(lines[0]) + [10] + Joined(lines[1..])
  }

  /** The number of lines before the first "." (all of them if none is). */
  function Taken(lines: seq<string>): (n: nat)
    ensures n <= |lines|
    ensures forall k :: 0 <= k < n ==> lines[k] != "."
    ensures n < |lines| ==> lines[n] == "."
  {
    if lines == [] || lines[0] == "." then 0 else 1 + Taken(lines[1..])
  }

  lemma JoinedStep(lines: seq<string>, n: nat)
    requires 0 < n <= |lines|
    ensures Joined(lines[..n]) == Encode(lines[0]) + [10] + Joined(lines[1..][..n - 1])
  {
    assert lines[..n][1..] == lines[1..][..n - 1];
  }

  /** writeLines ended at "." or at the end of the input: it stored every
      line before that, each with its '\n', and read the "." too. */
  predicate EndedNormally(lines: seq<string>, data: seq<byte>, d: seq<byte>, n: nat) {
    var t := Taken(lines);
    d == data + Joined(lines[..t]) && n == t + (if t < |lines| then 1 else 0)
  }

  /** writeLines stopped after its n-th line left the buffer exactly full:
      it stored the lines up to that one, without that line's '\n', and
      left the rest of the input unread. */
  predicate StoppedFull(lines: seq<string>, blockSize: nat, data: seq<byte>, d: seq<byte>, n: nat)
    requires blockSize > 0
  {
    0 < n <= Taken(lines) && d + [10] == data + Joined(lines[..n]) && |d| == Grow(blockSize, |d|)
  }

  /** What writeLines stores, in terms of the lines it reads. */
  lemma {:induction false} CollectMeaning(lines: seq<string>, blockSize: nat, data: seq<byte>)
    requires blockSize > 0
    ensures var (d, n) := Collect(lines, blockSize, data);
      EndedNormally(lines, data, d, n) || StoppedFull(lines, blockSize, data, d, n)
    decreases |lines|
  {
    var (d, n) := Collect(lines, blockSize, data);
    if lines == [] || lines[0] == "." {
      assert lines[..0] == [];
      assert EndedNormally(lines, data, d, n);
    } else {
      var d1 := data + Encode(lines[0]);
      var t := Taken(lines);
      if |d1| >= Grow(blockSize, |d1|) {
        JoinedStep(lines, 1);
        assert lines[1..][..0] == [];
        assert StoppedFull(lines, blockSize, data, d, n);
      } else {
        var tail := lines[1..];
        CollectMeaning(tail, blockSize, d1 + [10]);
        var (d2, n2) := Collect(tail, blockSize, d1 + [10]);
        assert d == d2 && n == 1 + n2;
        if EndedNormally(tail, d1 + [10], d2, n2) {
          NormalStep(lines, data, d2, n2);
        } else {
          FullStep(lines, blockSize, data, d2, n2);
        }
      }
    }
  }

  lemma NormalStep(lines: seq<string>, data: seq<byte>, d: seq<byte>, n: nat)
    requires lines != [] && lines[0] != "."
    requires EndedNormally(lines[1..], data + Encode(lines[0]) + [10], d, n)
    ensures EndedNormally(lines, data, d, 1 + n)
  {
    JoinedStep(lines, Taken(lines));
  }

  lemma FullStep(lines: seq<string>, blockSize: nat, data: seq<byte>, d: seq<byte>, n: nat)
    requires blockSize > 0 && lines != [] && lines[0] != "."
    requires StoppedFull(lines[1..], blockSize, data + Encode(lines[0]) + [10], d, n)
    ensures StoppedFull(lines, blockSize, data, d, 1 + n)
  {
    JoinedStep(lines, n + 1);
  }

  /** writeLines(fname, in): reads lines until the end of input or ".",
      storing each line's (byte) casts and a '\n' in a buffer of blockSize
      bytes that doubles whenever a byte would not fit; after a line that
      fills the buffer exactly it stops. The buffer is what it writes;
      `consumed` is the number of lines it read. */
  method WriteLines(lines: seq<string>, blockSize: nat) returns (buf: array<byte>, consumed: nat)
    requires blockSize > 0
    ensures fresh(buf)
    ensures var (d, n) := Collect(lines, blockSize, []);
      && consumed == n
      && buf.Length == Grow(blockSize, |d|)
      && buf[..] == d + Zeros(buf.Length - |d|)
  {
    ghost var (d, n) := Collect(lines, blockSize, []);
    buf := new byte[blockSize](_ => 0);
    var i: nat := 0;
    consumed := 0;
    assert lines[0..] == lines;
    while consumed < |lines|
      invariant consumed <= |lines| && i <= buf.Length
      invariant buf.Length == Grow(blockSize, i)
      invariant forall k :: i <= k < buf.Length ==> buf[k] == 0
      invariant Collect(lines[consumed..], blockSize, buf[..i]).0 == d
      invariant consumed + Collect(lines[consumed..], blockSize, buf[..i]).1 == n
      invariant fresh(buf)
      decreases |lines| - consumed
    {
      ghost var rest := lines[consumed..];
      var line := lines[consumed];
      consumed := consumed + 1;
      if line == "." {
        break;
      }
      ghost var d0 := buf[..i];
      var full;
      buf, i, full := StoreLine(buf, i, line, blockSize);
      if full {
        break;
      }
      CollectNext(rest, blockSize, d0);
      assert rest[1..] == lines[consumed..];
    }
    ZeroTail(buf[..], i);
  }

  /** One line of writeLines: its bytes, then '\n' unless the bytes left
      the buffer exactly full. */
  method StoreLine(b0: array<byte>, i0: nat, line: string, blockSize: nat)
    returns (buf: array<byte>, i: nat, full: bool)
    requires blockSize > 0 && i0 <= b0.Length == Grow(blockSize, i0)
    requires forall k :: i0 <= k < b0.Length ==> b0[k] == 0
    modifies b0
    ensures buf == b0 || fresh(buf)
    ensures i <= buf.Length == Grow(blockSize, i)
    ensures var d := old(b0[..i0]) + Encode(line);
      && full == (|d| >= Grow(blockSize, |d|))
      && buf[..i] == (if full then d else d + [10])
    ensures forall k :: i <= k < buf.Length ==> buf[k] == 0
  {
    buf, i := AppendLine(b0, i0, line, blockSize);
    full := i >= buf.Length;
    if !full {
      ghost var d := buf[..i];
      buf[i] := 10;
      assert buf[..i + 1] == d + [10];
      GrowSame(blockSize, i, i + 1);
      i := i + 1;
    }
  }

  /** One line of writeLines that neither ends the input nor fills the
      buffer: the rest is read with its bytes and '\n' stored. */
  lemma CollectNext(rest: seq<string>, blockSize: nat, data: seq<byte>)
    requires blockSize > 0 && rest != [] && rest[0] != "."
    requires |data + Encode(rest[0])| < Grow(blockSize, |data + Encode(rest[0])|)
    ensures Collect(rest, blockSize, data).0 == Collect(rest[1..], blockSize, data + Encode(rest[0]) + [10]).0
    ensures Collect(rest, blockSize, data).1 == 1 + Collect(rest[1..], blockSize, data + Encode(rest[0]) + [10]).1
  {
  }

  lemma ZeroTail(a: seq<byte>, i: nat)
    requires i <= |a| && forall k :: i <= k < |a| ==> a[k] == 0
    ensures a == a[..i] + Zeros(|a| - i)
  {
  }

  /** The inner loop of writeLines: the line's bytes stored from i on, the
      buffer doubled (its contents copied) whenever a byte would not fit. */
  method AppendLine(b0: array<byte>, i0: nat, line: string, blockSize: nat) returns (buf: array<byte>, i: nat)
    requires blockSize > 0 && i0 <= b0.Length == Grow(blockSize, i0)
    requires forall k :: i0 <= k < b0.Length ==> b0[k] == 0
    modifies b0
    ensures buf == b0 || fresh(buf)
    ensures i == i0 + |line| <= buf.Length == Grow(blockSize, i)
    ensures buf[..i] == old(b0[..i0]) + Encode(line)
    ensures forall k :: i <= k < buf.Length ==> buf[k] == 0
  {
    buf := b0;
    i := i0;
    var j := 0;
    while j < |line|
      invariant j <= |line| && i == i0 + j <= buf.Length == Grow(blockSize, i)
      invariant buf == b0 || fresh(buf)
      invariant buf[..i] == old(b0[..i0]) + Encode(line[..j])
      invariant forall k :: i <= k < buf.Length ==> buf[k] == 0
    {
      buf := PutByte(buf, i, CharToByte(line[j]), blockSize);
      assert Encode(line[..j + 1]) == Encode(line[..j]) + [CharToByte(line[j])];
      i := i + 1;
      j := j + 1;
    }
    assert line[..j] == line;
  }

  /** buf[i++] = b, after doubling the buffer when i is past its end. */
  method PutByte(b0: array<byte>, i: nat, b: byte, blockSize: nat) returns (buf: array<byte>)
    requires blockSize > 0 && i <= b0.Length == Grow(blockSize, i)
    requires forall k :: i <= k < b0.Length ==> b0[k] == 0
    modifies b0
    ensures buf == b0 || fresh(buf)
    ensures i < buf.Length == Grow(blockSize, i + 1)
    ensures buf[..i + 1] == old(b0[..i]) + [b]
    ensures forall k :: i + 1 <= k < buf.Length ==> buf[k] == 0
  {
    buf := b0;
    if i >= buf.Length {
      GrowNext(blockSize, i);
      buf := Doubled(buf);
    } else {
      GrowSame(blockSize, i, i + 1);
    }
    buf[i] := b;
    assert buf[..i + 1] == buf[..i] + [b];
  }

  /** new byte[buf.length * 2] with buf copied to its front
      (System.arraycopy). */
  method Doubled(buf: array<byte>) returns (bigger: array<byte>)
    ensures fresh(bigger) && bigger.Length == 2 * buf.Length
    ensures bigger[..buf.Length] == buf[..]
    ensures forall k :: buf.Length <= k < bigger.Length ==> bigger[k] == 0
  {
    bigger := new byte[buf.Length * 2](_ => 0);
    forall k | 0 <= k < buf.Length {
      bigger[k] := buf[k];
    }
  }

  // --------------------------------------------------- showChar(b)

  /** %03o of a byte: three octal digits. */
  function Octal3(b: byte): string {
    [('0' as int + b / 64) as char, ('0' as int + (b / 8) % 8) as char, ('0' as int + b % 8) as char]
  }

  /** showChar(b), as written: printable characters as themselves, '\n' as
      the two characters \n and a newline, anything else as a backslash and
      three octal digits. The backslash test comes after the printable test,
      which already takes 92, so it never applies. */
  function ShowChar(b: byte): string {
    if 32 <= b <= 126 then [b as char]
    else if b == 10 then "\\n\n"
    else if b == 92 then "\\\\"
    else "\\" + Octal3(b)
  }

  /** Reading a display back: an escape (\n and a newline, \\ or \ and three
      octal digits starting 0-3) gives its byte, any other character its
      (byte) cast. */
  function ParseShown(s: string): (bs: seq<byte>)
    decreases |s|
  {
    if s == [] then []
    else if s[0] == '\\' && |s| >= 3 && s[1] == 'n' && s[2] == '\n' then [10] + ParseShown(s[3..])
    else if s[0] == '\\' && |s| >= 2 && s[1] == '\\' then [92] + ParseShown(s[2..])
    else if s[0] == '\\' && |s| >= 4 && '0' <= s[1] <= '3' && '0' <= s[2] <= '7' && '0' <= s[3] <= '7' then
      [(s[1] as int - '0' as int) * 64 + (s[2] as int - '0' as int) * 8 + (s[3] as int - '0' as int)] + ParseShown(s[4..])
    else [CharToByte(s[0])] + ParseShown(s[1..])
  }

  /** One byte's display, on its own, reads back as that byte: showChar
      loses nothing byte by byte. */
  lemma ShowCharReadsBack(b: byte)
    ensures ParseShown(ShowChar(b)) == [b]
  {
    if b == 92 {
      assert ShowChar(b) == "\\";
    } else {
      ParseEscapedUnit(b, []);
      assert ShowCharEscaped(b) + [] == ShowChar(b);
    }
  }

  lemma ShowCharInjective(a: byte, b: byte)
    requires ShowChar(a) == ShowChar(b)
    ensures a == b
  {
    ShowCharReadsBack(a);
    ShowCharReadsBack(b);
  }

  /** What readTest prints for a sequence of bytes, one showChar each. */
  function ShowAll(bs: seq<byte>): string {
    if bs == [] then [] else ShowChar(bs[0]) + ShowAll(bs[1..])
  }

  /** As written, a backslash prints as itself, so the bytes \001 and the
      single byte 1 print the same text. */
  lemma ShowAllAmbiguous()
    ensures ShowAll([92, 48, 48, 49]) == ShowAll([1]) == "\\001"
  {
    assert ShowAll([49]) == "1";
    assert ShowAll([48, 49]) == "01";
    assert ShowAll([48, 48, 49]) == "001";
  }

  /** showChar with its backslash branch reachable: a backslash prints as
      \\. */
  function ShowCharEscaped(b: byte): string {
    if b == 92 then "\\\\"
    else if 32 <= b <= 126 then [b as char]
    else if b == 10 then "\\n\n"
    else "\\" + Octal3(b)
  }

  function ShowAllEscaped(bs: seq<byte>): string {
    if bs == [] then [] else ShowCharEscaped(bs[0]) + ShowAllEscaped(bs[1..])
  }

  lemma ParseEscapedUnit(b: byte, rest: string)
    ensures ParseShown(ShowCharEscaped(b) + rest) == [b] + ParseShown(rest)
  {
    var s := ShowCharEscaped(b) + rest;
    if b == 92 {
      assert s[2..] == rest;
    } else if 32 <= b <= 126 {
      assert s[1..] == rest;
    } else if b == 10 {
      assert s[3..] == rest;
    } else {
      ParseOctal(b, rest);
    }
  }

  /** An octal escape reads back as its byte. */
  lemma ParseOctal(b: byte, rest: string)
    ensures ParseShown("\\" + Octal3(b) + rest) == [b] + ParseShown(rest)
  {
    var s := "\\" + Octal3(b) + rest;
    assert s[0] == '\\' && s[1] == Octal3(b)[0] && s[2] == Octal3(b)[1] && s[3] == Octal3(b)[2];
    assert s[4..] == rest;
  }

  /** With backslashes escaped, the whole display reads back as the bytes
      shown. */
  lemma {:induction false} ShownRoundTrip(bs: seq<byte>)
    ensures ParseShown(ShowAllEscaped(bs)) == bs
  {
    if bs != [] {
      ParseEscapedUnit(bs[0], ShowAllEscaped(bs[1..]));
      ShownRoundTrip(bs[1..]);
    }
  }
}
