/** The 16-byte directory entries the shell decodes: bytes 0-1 are the block
    number (big-endian), byte 2 the type ('O' file, 'D' directory, 'L'
    symbolic link) and bytes 3-15 the name, ended by the first zero byte or
    by the end of the field. Functions take the buffer from an entry's offset
    on, so the first 16 bytes are that entry and the rest follow it. */
module DirEntries {
  import opened JavaTypes
  import opened KernelFs

  const EntrySize: nat := 16
  /** Bytes 3..15 of an entry hold the name. */
  const NameField: nat := 13

  /** A buffer made of whole entries (the shell's buffers are blockSize, 512,
      bytes long). */
  predicate Whole(r: seq<byte>) {
    |r| % EntrySize == 0
  }

  /** A non-empty buffer of whole entries starts with a whole entry and
      continues with whole entries. */
  lemma WholeStep(r: seq<byte>)
    requires Whole(r) && |r| > 0
    ensures |r| >= EntrySize && Whole(r[EntrySize..])
  {
  }

  /** ((r[0] & 0xff) << 8) + (r[1] & 0xff). */
  function EntryBlock(r: seq<byte>): (b: nat)
    requires |r| >= EntrySize
    ensures b < 0x1_0000
  {
    r[0] as int * 256 + r[1] as int
  }

  /** The end of the name field scan from j: the first zero at or after j,
      or the end of the field. */
  function NameEnd(r: seq<byte>, j: nat): (n: nat)
    requires |r| >= EntrySize && j <= NameField
    ensures j <= n <= NameField
    ensures forall k :: 3 + j <= k < 3 + n ==> r[k] != 0
    ensures n < NameField ==> r[3 + n] == 0
    decreases NameField - j
  {
    if j == NameField || r[3 + j] == 0 then j else NameEnd(r, j + 1)
  }

  /** The name bytes of the entry: bytes 3.. up to the first zero, at most 13. */
  function EntryName(r: seq<byte>): (name: seq<byte>)
    requires |r| >= EntrySize
    ensures |name| <= NameField && name == r[3..3 + |name|]
    ensures forall k :: 0 <= k < |name| ==> name[k] != 0
    ensures |name| < NameField ==> r[3 + |name|] == 0
  {
    r[3..3 + NameEnd(r, 0)]
  }

  // --------------------------------------------------- dirSearch(buf, s)

  /** Where the inner loop of dirSearch(buf, s) stops from j: at the end of
      s, at the first byte that differs from s, or at the end of the field. */
  function MatchEnd(r: seq<byte>, s: string, j: nat): (n: nat)
    requires |r| >= EntrySize && j <= NameField
    ensures j <= n <= NameField
    ensures n == j || n <= |s|
    ensures forall k :: j <= k < n ==> r[3 + k] == CharToByte(s[k])
    ensures n < NameField ==> n >= |s| || r[3 + n] != CharToByte(s[n])
    decreases NameField - j
  {
    if j == NameField || j >= |s| || r[3 + j] != CharToByte(s[j]) then j
    else MatchEnd(r, s, j + 1)
  }

  /** The test dirSearch(buf, s) applies to one entry, as written: s must
      match the field and the byte after it must be zero. For a 13-character
      name that byte is the next entry's first byte, or past the end of the
      buffer (None: the read throws). */
  function EntryTestAsWritten(r: seq<byte>, s: string): (t: Option<bool>)
    requires |r| >= EntrySize
  {
    var j := MatchEnd(r, s, 0);
    if j != |s| then Some(false)
    else if 3 + j < |r| then Some(r[3 + j] == 0)
    else None
  }

  /** What EntryTestAsWritten accepts, rejects and throws on, in terms of the
      bytes of the buffer. */
  lemma EntryTestAsWrittenMeaning(r: seq<byte>, s: string)
    requires |r| >= EntrySize
    ensures EntryTestAsWritten(r, s) == Some(true) <==>
      |s| <= NameField && r[3..3 + |s|] == Encode(s) && 3 + |s| < |r| && r[3 + |s|] == 0
    ensures EntryTestAsWritten(r, s) == None <==>
      |s| == NameField && r[3..3 + NameField] == Encode(s) && |r| == EntrySize
  {
    var j := MatchEnd(r, s, 0);
    if |s| <= NameField && r[3..3 + |s|] == Encode(s) {
      forall k | 0 <= k < |s| ensures r[3 + k] == CharToByte(s[k]) {
        assert r[3..3 + |s|][k] == Encode(s)[k];
      }
      assert j == |s|;
    }
    if j == |s| {
      assert r[3..3 + |s|] == Encode(s);
    }
  }

  /** dirSearch(buf, s) as written, over the entries of r: the block of the
      first entry the test accepts, 0 when none does, Threw when the test
      reads past the buffer. */
  function DirSearchAsWritten(r: seq<byte>, s: string): (res: Outcome)
    requires Whole(r)
    ensures res.Returned? ==> 0 <= res.value < 0x1_0000
    decreases |r|
  {
    if |r| == 0 then Returned(0)
    else
      match EntryTestAsWritten(r, s)
      case None => Threw
      case Some(true) => Returned(EntryBlock(r))
      case Some(false) => DirSearchAsWritten(r[EntrySize..], s)
  }

  /** The inner loop of dirSearch(buf, s) at the entry at offset. */
  method MatchEndAt(buf: array<byte>, offset: nat, s: string) returns (j: nat)
    requires offset + EntrySize <= buf.Length
    ensures j == MatchEnd(buf[offset..], s, 0)
  {
    ghost var r := buf[offset..];
    j := 0;
    while j < NameField
      invariant j <= NameField && MatchEnd(r, s, 0) == MatchEnd(r, s, j)
    {
      if j >= |s| || buf[offset + j + 3] != CharToByte(s[j]) {
        break;
      }
      j := j + 1;
    }
  }

  /** dirSearch(buf, s): the outer loop over the entries. */
  method DirSearchName(buf: array<byte>, s: string) returns (res: Outcome)
    requires Whole(buf[..])
    ensures res == DirSearchAsWritten(buf[..], s)
  {
    var offset := 0;
    assert buf[offset..] == buf[..];
    while offset < buf.Length
      invariant 0 <= offset <= buf.Length && Whole(buf[offset..])
      invariant DirSearchAsWritten(buf[offset..], s) == DirSearchAsWritten(buf[..], s)
      decreases buf.Length - offset
    {
      ghost var r := buf[offset..];
      WholeStep(r);
      var j := MatchEndAt(buf, offset, s);
      if j == |s| {
        if offset + j + 3 >= buf.Length {
          return Threw;
        }
        if buf[offset + j + 3] == 0 {
          return Returned(buf[offset] as int * 256 + buf[offset + 1] as int);
        }
      }
      assert r[EntrySize..] == buf[offset + EntrySize..];
      offset := offset + EntrySize;
    }
    return Returned(0);
  }

  /** The test dirSearch(buf, s) evidently intends: s matches the name field
      exactly, ending at a zero or at the end of the field. */
  function EntryMatches(r: seq<byte>, s: string): bool
    requires |r| >= EntrySize
  {
    var j := MatchEnd(r, s, 0);
    j == |s| && (j == NameField || r[3 + j] == 0)
  }

  /** For a name without zero bytes, the intended test holds exactly when the
      entry's decoded name is the name's bytes. */
  lemma EntryMatchesName(r: seq<byte>, s: string)
    requires |r| >= EntrySize
    requires forall k :: 0 <= k < |s| ==> CharToByte(s[k]) != 0
    ensures EntryMatches(r, s) <==> EntryName(r) == Encode(s)
  {
    if EntryMatches(r, s) {
      MatchGivesName(r, s);
    }
    if EntryName(r) == Encode(s) {
      NameGivesMatch(r, s);
    }
  }

  lemma MatchGivesName(r: seq<byte>, s: string)
    requires |r| >= EntrySize && EntryMatches(r, s)
    requires forall k :: 0 <= k < |s| ==> CharToByte(s[k]) != 0
    ensures EntryName(r) == Encode(s)
  {
    var j := MatchEnd(r, s, 0);
    NameEndIs(r, 0, j);
    assert r[3..3 + j] == Encode(s);
  }

  lemma NameGivesMatch(r: seq<byte>, s: string)
    requires |r| >= EntrySize && EntryName(r) == Encode(s)
    ensures EntryMatches(r, s)
  {
    var name := EntryName(r);
    forall k | 0 <= k < |s| ensures r[3 + k] == CharToByte(s[k]) {
      assert name[k] == Encode(s)[k];
    }
    assert MatchEnd(r, s, 0) == |s|;
  }

  /** dirSearch(buf, s) as evidently intended: the block of the first entry
      named s, 0 when there is none; it never reads past the buffer. */
  function DirSearch(r: seq<byte>, s: string): (b: nat)
    requires Whole(r)
    ensures b < 0x1_0000
    decreases |r|
  {
    if |r| == 0 then 0
    else if EntryMatches(r, s) then EntryBlock(r)
    else DirSearch(r[EntrySize..], s)
  }

  /** The two searches agree on every name but one of exactly 13
      characters: a shorter name is never tested against the next entry's
      bytes, and a longer one matches no entry under either test. */
  lemma {:induction false} DirSearchAgrees(r: seq<byte>, s: string)
    requires Whole(r) && |s| != NameField
    ensures DirSearchAsWritten(r, s) == Returned(DirSearch(r, s))
    decreases |r|
  {
    if |r| > 0 {
      assert EntryTestAsWritten(r, s) == Some(EntryMatches(r, s));
      DirSearchAgrees(r[EntrySize..], s);
    }
  }

  // --------------------------------------------------- dirSearch(buf, n)

  /** dirSearch(buf, n): the name of the first entry whose block is n (as
      new String(buf, off + 3, j) makes it), or null. */
  function DirSearchBlock(r: seq<byte>, n: int): (name: Option<string>)
    requires Whole(r)
    decreases |r|
  {
    if |r| == 0 then None
    else if EntryBlock(r) == n then Some(Name(EntryName(r)))
    else DirSearchBlock(r[EntrySize..], n)
  }

  /** The name scan of dirSearch(buf, n) and dumpDir at the entry at offset:
      the index of the first zero byte of the field, or 13. */
  method NameEndAt(buf: array<byte>, offset: nat) returns (j: nat)
    requires offset + EntrySize <= buf.Length
    ensures j == NameEnd(buf[offset..], 0)
    ensures buf[offset + 3..offset + 3 + j] == EntryName(buf[offset..])
  {
    ghost var r := buf[offset..];
    j := 0;
    while j < NameField
      invariant j <= NameField && NameEnd(r, 0) == NameEnd(r, j)
    {
      assert r[3 + j] == buf[offset + j + 3];
      if buf[offset + j + 3] == 0 {
        break;
      }
      j := j + 1;
    }
    assert r[3..3 + j] == buf[offset + 3..offset + 3 + j];
  }

  /** dirSearch(buf, n): the loop over the entries. */
  method DirSearchByBlock(buf: array<byte>, n: int) returns (name: Option<string>)
    requires Whole(buf[..])
    ensures name == DirSearchBlock(buf[..], n)
  {
    var offset := 0;
    assert buf[offset..] == buf[..];
    while offset < buf.Length
      invariant 0 <= offset <= buf.Length && Whole(buf[offset..])
      invariant DirSearchBlock(buf[offset..], n) == DirSearchBlock(buf[..], n)
      decreases buf.Length - offset
    {
      ghost var r := buf[offset..];
      WholeStep(r);
      var blk := buf[offset] as int * 256 + buf[offset + 1] as int;
      if blk == n {
        var j := NameEndAt(buf, offset);
        return Some(Name(buf[offset + 3..offset + 3 + j]));
      }
      assert r[EntrySize..] == buf[offset + EntrySize..];
      offset := offset + EntrySize;
    }
    return None;
  }

  // --------------------------------------------------- dumpDir

  /** One line dumpDir prints: block number, type byte and name. */
  datatype DirLine = DirLine(block: nat, kind: byte, name: string)

  const Link: byte := 76   // 'L'

  /** The lines dumpDir prints for the entries of r, and whether it stopped
      at a symbolic link, whose target it cannot read (readlink always
      fails). Entries with block 0 are skipped. */
  function Listing(r: seq<byte>): (res: (seq<DirLine>, bool))
    requires Whole(r)
    decreases |r|
  {
    if |r| == 0 then ([], false)
    else
      var rest := Listing(r[EntrySize..]);
      if EntryBlock(r) == 0 then rest
      else if r[2] == Link then ([EntryLine(r)], true)
      else ([EntryLine(r)] + rest.0, rest.1)
  }

  /** The line dumpDir prints for the entry at the start of r. */
  function EntryLine(r: seq<byte>): (line: DirLine)
    requires |r| >= EntrySize
  {
    DirLine(EntryBlock(r), r[2], Name(EntryName(r)))
  }

  /** What dumpDir prints: one line per entry with a non-zero block at
      most, each with a 16-bit block number and a name of at most 13
      characters; it stops exactly after the first link. */
  lemma {:induction false} ListingShape(r: seq<byte>)
    requires Whole(r)
    ensures var (lines, stopped) := Listing(r);
      && EntrySize * |lines| <= |r|
      && (forall i :: 0 <= i < |lines| ==> 0 < lines[i].block < 0x1_0000 && |lines[i].name| <= NameField)
      && (stopped <==> lines != [] && lines[|lines| - 1].kind == Link)
      && (forall i :: 0 <= i < |lines| - 1 ==> lines[i].kind != Link)
    decreases |r|
  {
    if |r| > 0 {
      WholeStep(r);
      ListingShape(r[EntrySize..]);
      var rest := Listing(r[EntrySize..]);
      if EntryBlock(r) != 0 && r[2] != Link {
        var line := EntryLine(r);
        assert Listing(r).0 == [line] + rest.0;
        forall i | 0 <= i < |Listing(r).0| - 1 ensures Listing(r).0[i].kind != Link {
          if i > 0 {
            assert Listing(r).0[i] == rest.0[i - 1];
          }
        }
      }
    }
  }

  /** dumpDir(dirname) after readdir returned n into buf: the printed lines
      and the result, which is readlink's failure once a link entry is met. */
  method DumpDir(buf: array<byte>, n: int) returns (lines: seq<DirLine>, r: int)
    requires Whole(buf[..])
    ensures n < 0 ==> lines == [] && r == n
    ensures n >= 0 ==> lines == Listing(buf[..]).0 && r == (if Listing(buf[..]).1 then -1 else n)
  {
    lines := [];
    r := n;
    if n < 0 {
      return;
    }
    var i := 0;
    assert buf[i..] == buf[..];
    assert lines + Listing(buf[..]).0 == Listing(buf[..]).0;
    while i < buf.Length
      invariant 0 <= i <= buf.Length && Whole(buf[i..]) && r == n
      invariant lines + Listing(buf[i..]).0 == Listing(buf[..]).0
      invariant Listing(buf[i..]).1 == Listing(buf[..]).1
      decreases buf.Length - i
    {
      ghost var e := buf[i..];
      WholeStep(e);
      assert e[EntrySize..] == buf[i + EntrySize..];
      ghost var rest := Listing(e[EntrySize..]);
      var block := buf[i] as int * 256 + buf[i + 1] as int;
      if block != 0 {
        var line := EntryAt(buf, i);
        if buf[i + 2] == Link {
          assert Listing(e) == ([line], true);
          return lines + [line], -1;
        }
        assert Listing(e).0 == [line] + rest.0;
        assert (lines + [line]) + rest.0 == lines + ([line] + rest.0);
        lines := lines + [line];
      }
      i := i + EntrySize;
    }
  }

  /** The scan of one entry in dumpDir: its block, type byte and name. */
  method EntryAt(buf: array<byte>, i: nat) returns (line: DirLine)
    requires i + EntrySize <= buf.Length
    ensures line == EntryLine(buf[i..])
  {
    var j := NameEndAt(buf, i);
    var fname := NameOf(buf, i + 3, j);
    assert buf[i..][3..3 + j] == buf[i + 3..i + 3 + j];
    line := DirLine(buf[i] as int * 256 + buf[i + 1] as int, buf[i + 2], fname);
  }

  /** The StringBuffer loop of dumpDir: one (char) cast per name byte. */
  method NameOf(buf: array<byte>, from: nat, len: nat) returns (fname: string)
    requires from + len <= buf.Length
    ensures fname == Name(buf[from..from + len])
  {
    fname := "";
    var j := 0;
    while j < len
      invariant j <= len && fname == Name(buf[from..from + j])
    {
      assert buf[from..from + j + 1] == buf[from..from + j] + [buf[from + j]];
      fname := fname + [ByteToChar(buf[from + j])];
      j := j + 1;
    }
  }

  // --------------------------------------------------- the encoding decoded

  /** A line an entry can hold: a 16-bit block number, a name of at most 13
      characters, each of them a non-zero 7-bit character. */
  predicate Storable(d: DirLine) {
    && d.block < 0x1_0000
    && |d.name| <= NameField
    && forall k :: 0 <= k < |d.name| ==> 0 < d.name[k] as int < 128
  }

  /** The 16 bytes of an entry holding d. */
  function EncodeEntry(d: DirLine): (e: seq<byte>)
    requires Storable(d)
    ensures |e| == EntrySize
  {
    [d.block / 256, d.block % 256, d.kind] + Encode(d.name) + Zeros(NameField - |d.name|)
  }

  /** A directory block holding the lines ds, in order. */
  function EncodeDir(ds: seq<DirLine>): (r: seq<byte>)
    requires forall i :: 0 <= i < |ds| ==> Storable(ds[i])
    ensures |r| == EntrySize * |ds| && Whole(r)
  {
    if ds == [] then [] else EncodeEntry(ds[0]) + EncodeDir(ds[1..])
  }

  /** NameEnd from j is n when the bytes from j up to n are not zero and n
      ends the field or holds a zero. */
  lemma {:induction false} NameEndIs(r: seq<byte>, j: nat, n: nat)
    requires |r| >= EntrySize && j <= n <= NameField
    requires forall k :: 3 + j <= k < 3 + n ==> r[k] != 0
    requires n < NameField ==> r[3 + n] == 0
    ensures NameEnd(r, j) == n
    decreases n - j
  {
    if j < n {
      assert r[3 + j] != 0;
      NameEndIs(r, j + 1, n);
    }
  }

  /** A 7-bit string survives getBytes and the (char) casts back. */
  lemma NameEncode(s: string)
    requires forall k :: 0 <= k < |s| ==> s[k] as int < 128
    ensures Name(Encode(s)) == s
  {
  }

  /** Decoding an encoded entry gives back its block, type and name. */
  lemma {:induction false} EntryRoundTrip(d: DirLine)
    requires Storable(d)
    ensures EntryBlock(EncodeEntry(d)) == d.block && EncodeEntry(d)[2] == d.kind
    ensures EntryName(EncodeEntry(d)) == Encode(d.name)
    ensures Name(EntryName(EncodeEntry(d))) == d.name
  {
    var e := EncodeEntry(d);
    var m := |d.name|;
    assert e[3..3 + m] == Encode(d.name);
    forall k | 3 <= k < 3 + m ensures e[k] != 0 {
      assert e[k] == Encode(d.name)[k - 3] == CharToByte(d.name[k - 3]);
    }
    if m < NameField {
      assert e[3 + m] == Zeros(NameField - m)[0];
    }
    NameEndIs(e, 0, m);
    NameEncode(d.name);
  }

  /** An entry followed by more bytes decodes as the entry alone. */
  lemma EntryPrefix(e: seq<byte>, rest: seq<byte>)
    requires |e| == EntrySize
    ensures EntryBlock(e + rest) == EntryBlock(e) && (e + rest)[2] == e[2]
    ensures EntryName(e + rest) == EntryName(e)
    ensures (e + rest)[EntrySize..] == rest
  {
    assert (e + rest)[3..3 + NameField] == e[3..3 + NameField];
    NameEndSame(e + rest, e, 0);
  }

  /** dumpDir over an encoded directory of files and directories prints its
      lines back, in order, and returns readdir's result. */
  lemma {:induction false} ListingRoundTrip(ds: seq<DirLine>)
    requires forall i :: 0 <= i < |ds| ==> Storable(ds[i]) && ds[i].block != 0 && ds[i].kind != Link
    ensures Listing(EncodeDir(ds)) == (ds, false)
  {
    if ds != [] {
      var e := EncodeEntry(ds[0]);
      var rest := EncodeDir(ds[1..]);
      EntryPrefix(e, rest);
      EntryRoundTrip(ds[0]);
      ListingRoundTrip(ds[1..]);
      assert [ds[0]] + ds[1..] == ds;
    }
  }

  /** NameEnd only looks at the name field. */
  lemma {:induction false} NameEndSame(r1: seq<byte>, r2: seq<byte>, j: nat)
    requires |r1| >= EntrySize && |r2| >= EntrySize && j <= NameField
    requires r1[3..3 + NameField] == r2[3..3 + NameField]
    ensures NameEnd(r1, j) == NameEnd(r2, j)
    decreases NameField - j
  {
    if j < NameField {
      assert r1[3 + j] == r1[3..3 + NameField][j] == r2[3..3 + NameField][j] == r2[3 + j];
      NameEndSame(r1, r2, j + 1);
    }
  }

  /** Reference answers over the lines themselves: the block of the first
      line named s (0 for none) and the name of the first line with block b. */
  function FirstBlockNamed(ds: seq<DirLine>, s: string): nat {
    if ds == [] then 0
    else if ds[0].name == s then ds[0].block
    else FirstBlockNamed(ds[1..], s)
  }

  function FirstNameOfBlock(ds: seq<DirLine>, b: int): Option<string> {
    if ds == [] then None
    else if ds[0].block == b then Some(ds[0].name)
    else FirstNameOfBlock(ds[1..], b)
  }

  /** On an encoded directory the corrected search by name finds the first
      line with that name. */
  lemma {:induction false} DirSearchEncoded(ds: seq<DirLine>, s: string)
    requires forall i :: 0 <= i < |ds| ==> Storable(ds[i])
    requires forall k :: 0 <= k < |s| ==> 0 < s[k] as int < 128
    ensures DirSearch(EncodeDir(ds), s) == FirstBlockNamed(ds, s)
  {
    if ds != [] {
      var e := EncodeEntry(ds[0]);
      var rest := EncodeDir(ds[1..]);
      EntryPrefix(e, rest);
      EntryRoundTrip(ds[0]);
      EntryMatchesName(e + rest, s);
      NameEncode(s);
      NameEncode(ds[0].name);
      DirSearchEncoded(ds[1..], s);
    }
  }

  /** On an encoded directory the search by block number finds the name of
      the first line with that block. */
  lemma {:induction false} DirSearchBlockEncoded(ds: seq<DirLine>, b: int)
    requires forall i :: 0 <= i < |ds| ==> Storable(ds[i])
    ensures DirSearchBlock(EncodeDir(ds), b) == FirstNameOfBlock(ds, b)
  {
    if ds != [] {
      var e := EncodeEntry(ds[0]);
      var rest := EncodeDir(ds[1..]);
      EntryPrefix(e, rest);
      EntryRoundTrip(ds[0]);
      DirSearchBlockEncoded(ds[1..], b);
    }
  }

  /** The two searches are inverse on a directory whose lines have distinct
      blocks: the name found for a line's block leads back to that block. */
  lemma {:induction false} SearchesInverse(ds: seq<DirLine>, i: nat)
    requires forall j :: 0 <= j < |ds| ==> Storable(ds[j])
    requires i < |ds|
    requires forall j :: 0 <= j < i ==> ds[j].block != ds[i].block && ds[j].name != ds[i].name
    ensures DirSearchBlock(EncodeDir(ds), ds[i].block) == Some(ds[i].name)
    ensures DirSearch(EncodeDir(ds), ds[i].name) == ds[i].block
  {
    DirSearchBlockEncoded(ds, ds[i].block);
    DirSearchEncoded(ds, ds[i].name);
    FirstIsAt(ds, i);
  }

  lemma {:induction false} FirstIsAt(ds: seq<DirLine>, i: nat)
    requires i < |ds|
    requires forall j :: 0 <= j < i ==> ds[j].block != ds[i].block && ds[j].name != ds[i].name
    ensures FirstNameOfBlock(ds, ds[i].block) == Some(ds[i].name)
    ensures FirstBlockNamed(ds, ds[i].name) == ds[i].block
  {
    if i > 0 {
      FirstIsAt(ds[1..], i - 1);
    }
  }

  /** dirSearch(buf, s) as written misses a name that fills the 13-byte
      field: the byte it tests after the name is the first byte of the next
      entry (the high byte of its block), or past the end of the buffer. The
      corrected search finds the entry. */
  lemma ThirteenCharsMissed(d: DirLine, rest: seq<byte>)
    requires Storable(d) && |d.name| == NameField && Whole(rest)
    ensures DirSearch(EncodeEntry(d) + rest, d.name) == d.block
    ensures rest == [] ==> DirSearchAsWritten(EncodeEntry(d) + rest, d.name) == Threw
    ensures rest != [] && rest[0] == 0 ==>
      DirSearchAsWritten(EncodeEntry(d) + rest, d.name) == Returned(d.block)
    ensures rest != [] && rest[0] != 0 ==>
      DirSearchAsWritten(EncodeEntry(d) + rest, d.name) == DirSearchAsWritten(rest, d.name)
  {
    var e := EncodeEntry(d);
    var r := e + rest;
    EntryPrefix(e, rest);
    EntryRoundTrip(d);
    EntryMatchesName(r, d.name);
    assert r[3..3 + NameField] == e[3..3 + NameField] == Encode(d.name);
    EntryTestAsWrittenMeaning(r, d.name);
    if rest != [] {
      assert r[3 + NameField] == rest[0];
    }
  }

  /** The input that shows it: a file named "abcdefghijklm" at block 5,
      alone or followed by an entry for block 256. */
  lemma DirSearchThirteenChars()
    ensures var d := DirLine(5, 79, "abcdefghijklm");
      var next := EncodeEntry(DirLine(256, 79, "x"));
      && DirSearchAsWritten(EncodeEntry(d) + next, d.name) == Returned(0)
      && DirSearch(EncodeEntry(d) + next, d.name) == 5
      && DirSearchAsWritten(EncodeEntry(d), d.name) == Threw
      && DirSearch(EncodeEntry(d), d.name) == 5
  {
    var d := DirLine(5, 79, "abcdefghijklm");
    var d1 := DirLine(256, 79, "x");
    var next := EncodeEntry(d1);
    ThirteenCharsMissed(d, next);
    ThirteenCharsMissed(d, []);
    assert EncodeEntry(d) + [] == EncodeEntry(d);
    EntryRoundTrip(d1);
    assert next[0] == 1;
    assert next[3] != CharToByte(d.name[0]);
    assert MatchEnd(next, d.name, 0) == 0;
    assert next[EntrySize..] == [];
  }
}
