/** Java primitive values as the kernel sees them: bytes, 32-bit ints, the
    (char) and (byte) casts, String.trim, and null as Option. */
module JavaTypes {

  datatype Option<+T> = None | Some(value: T)

  /** The unsigned value (b & 0xff) of a Java byte. */
  type byte = b: int | 0 <= b < 256

  /** A Java int. */
  type Int32 = x: int | -0x8000_0000 <= x < 0x8000_0000

  /** Two's-complement wrap-around of an int-typed Java expression. */
  function Wrap32(x: int): (r: Int32)
    ensures (r - x) % 0x1_0000_0000 == 0
    ensures -0x8000_0000 <= x < 0x8000_0000 ==> r == x
  {
    var m := x % 0x1_0000_0000;
    if m < 0x8000_0000 then m else m - 0x1_0000_0000
  }

  /** (char) b for a Java byte b: sign extension makes bytes 128..255
      (the negative Java bytes) into the characters U+FF80..U+FFFF. */
  function ByteToChar(b: byte): (c: char)
    ensures b < 128 ==> c as int == b
    ensures 128 <= b ==> c as int == 0xFF00 + b
  {
    if b < 128 then b as char else (0xFF00 + b) as char
  }

  /** (byte) c for a Java char c, read back as an unsigned byte. */
  function CharToByte(c: char): (b: byte)
    ensures (b - c as int) % 256 == 0
  {
    (c as int) % 256
  }

  lemma ByteCharRoundTrip(b: byte)
    ensures CharToByte(ByteToChar(b)) == b
  {
  }

  /** new String(bytes): one character per byte. */
  function Name(bs: seq<byte>): (s: string)
    ensures |s| == |bs|
    ensures forall i :: 0 <= i < |bs| ==> s[i] == ByteToChar(bs[i])
  {
    seq(|bs|, i requires 0 <= i < |bs| => ByteToChar(bs[i]))
  }

  /** String.getBytes() for the characters the kernel stores. */
  function Encode(s: string): (bs: seq<byte>)
    ensures |bs| == |s|
    ensures forall i :: 0 <= i < |s| ==> bs[i] == CharToByte(s[i])
  {
    seq(|s|, i requires 0 <= i < |s| => CharToByte(s[i]))
  }

  /** Name is injective: two byte strings with the same text are equal. */
  lemma {:induction false} NameInjective(a: seq<byte>, b: seq<byte>)
    requires Name(a) == Name(b)
    ensures a == b
  {
    assert |a| == |b|;
    forall i | 0 <= i < |a| ensures a[i] == b[i] {
      assert Name(a)[i] == Name(b)[i];
      ByteCharRoundTrip(a[i]);
      ByteCharRoundTrip(b[i]);
    }
  }

  /** The characters String.trim() removes: every code point up to ' '. */
  predicate IsTrimmed(c: char) {
    c <= ' '
  }

  function TrimLeft(s: string): string {
    if s != [] && IsTrimmed(s[0]) then TrimLeft(s[1..]) else s
  }

  function TrimRight(s: string): string {
    if s != [] && IsTrimmed(s[|s| - 1]) then TrimRight(s[..|s| - 1]) else s
  }

  /** String.trim(). */
  function Trim(s: string): string {
    TrimRight(TrimLeft(s))
  }

  /** TrimLeft drops exactly the leading trimmable characters. */
  lemma {:induction false} TrimLeftShape(s: string)
    ensures |TrimLeft(s)| <= |s| && TrimLeft(s) == s[|s| - |TrimLeft(s)|..]
    ensures TrimLeft(s) == [] || !IsTrimmed(TrimLeft(s)[0])
    ensures forall i :: 0 <= i < |s| - |TrimLeft(s)| ==> IsTrimmed(s[i])
  {
    if s != [] && IsTrimmed(s[0]) {
      var t := s[1..];
      TrimLeftShape(t);
      var l := TrimLeft(t);
      assert TrimLeft(s) == l;
      assert s[|s| - |l|..] == t[|t| - |l|..];
      forall i | 0 <= i < |s| - |l| ensures IsTrimmed(s[i]) {
        if i > 0 {
          assert s[i] == t[i - 1];
        }
      }
    }
  }

  /** TrimRight drops exactly the trailing trimmable characters. */
  lemma {:induction false} TrimRightShape(s: string)
    ensures |TrimRight(s)| <= |s| && TrimRight(s) == s[..|TrimRight(s)|]
    ensures TrimRight(s) == [] || !IsTrimmed(TrimRight(s)[|TrimRight(s)| - 1])
    ensures forall i :: |TrimRight(s)| <= i < |s| ==> IsTrimmed(s[i])
  {
    if s != [] && IsTrimmed(s[|s| - 1]) {
      var t := s[..|s| - 1];
      TrimRightShape(t);
      var r := TrimRight(t);
      assert TrimRight(s) == r;
      assert s[..|r|] == t[..|r|];
      forall i | |r| <= i < |s| ensures IsTrimmed(s[i]) {
        if i < |s| - 1 {
          assert s[i] == t[i];
        }
      }
    }
  }

  /** Trim leaves no trimmable character at either end, and removes only
      trimmable characters. */
  lemma TrimShape(s: string)
    ensures |Trim(s)| <= |s|
    ensures Clean(Trim(s))
    ensures var i := |s| - |TrimLeft(s)|;
      && 0 <= i && i + |Trim(s)| <= |s|
      && Trim(s) == s[i..i + |Trim(s)|]
      && AllTrimmed(s[..i]) && AllTrimmed(s[i + |Trim(s)|..])
  {
    TrimLeftShape(s);
    TrimRightShape(TrimLeft(s));
    var l := TrimLeft(s);
    var r := TrimRight(l);
    if r != [] {
      assert r[0] == l[0];
    }
    var i := |s| - |l|;
    assert l == s[i..];
    assert r == s[i..][..|r|] == s[i..i + |r|];
    var tail := s[i + |r|..];
    forall k | 0 <= k < |tail| ensures IsTrimmed(tail[k]) {
      assert tail[k] == l[|r| + k];
    }
  }

  /** A string that Trim leaves alone. */
  predicate Clean(s: string) {
    s == [] || (!IsTrimmed(s[0]) && !IsTrimmed(s[|s| - 1]))
  }

  lemma TrimOfClean(s: string)
    requires Clean(s)
    ensures Trim(s) == s
  {
  }

  /** trim() is idempotent. */
  lemma TrimIdempotent(s: string)
    ensures Trim(Trim(s)) == Trim(s)
  {
    TrimShape(s);
    TrimOfClean(Trim(s));
  }

  predicate AllTrimmed(s: string) {
    forall i :: 0 <= i < |s| ==> IsTrimmed(s[i])
  }

  lemma {:induction false} TrimLeftAppend(s: string, t: string)
    ensures TrimLeft(s) != [] ==> TrimLeft(s + t) == TrimLeft(s) + t
    ensures TrimLeft(s) == [] ==> TrimLeft(s + t) == TrimLeft(t)
  {
    if s == [] {
      assert s + t == t;
    } else if IsTrimmed(s[0]) {
      assert (s + t)[1..] == s[1..] + t;
      TrimLeftAppend(s[1..], t);
    }
  }

  lemma {:induction false} TrimLeftAllTrimmed(t: string)
    requires AllTrimmed(t)
    ensures TrimLeft(t) == []
  {
    if t != [] {
      TrimLeftAllTrimmed(t[1..]);
    }
  }

  lemma {:induction false} TrimRightPadded(x: string, pad: string)
    requires AllTrimmed(pad)
    ensures TrimRight(x + pad) == TrimRight(x)
  {
    if pad != [] {
      var last := |pad| - 1;
      assert (x + pad)[..|x + pad| - 1] == x + pad[..last];
      TrimRightPadded(x, pad[..last]);
    } else {
      assert x + pad == x;
    }
  }

  /** Trailing padding with trimmable characters (such as the zero bytes
      after a file name in its block) does not change the trimmed text. */
  lemma TrimPadded(s: string, pad: string)
    requires AllTrimmed(pad)
    ensures Trim(s + pad) == Trim(s)
  {
    TrimLeftAppend(s, pad);
    if TrimLeft(s) == [] {
      TrimLeftAllTrimmed(pad);
    } else {
      TrimRightPadded(TrimLeft(s), pad);
    }
  }

  function Zeros(n: nat): (z: seq<byte>)
    ensures |z| == n && forall i :: 0 <= i < n ==> z[i] == 0
  {
    seq(n, _ => 0)
  }

  /** The zero byte reads back as the NUL character, which trim() removes. */
  lemma NameOfZerosTrimmed(n: nat)
    ensures AllTrimmed(Name(Zeros(n)))
  {
  }
}
