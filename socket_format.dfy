/**
 * The byte encoding of the socket test scripts
 * (tests/socket-format/src/lib.rs): a `RawValue` is a typed scalar, a byte
 * string or a text string, and `to_bytes` lays it out on the wire.  Integers
 * are written in two's complement with the chosen byte order; strings as
 * UTF-8, optionally followed by a zero byte.
 */
module SocketFormat {
  import opened Strings

  datatype Endian = Little | Big

  /** The scalar and string variants of `RawValue` (the floating-point ones are not modelled). */
  datatype RawValue =
    | Int(val: int, endian: Endian)
    | UnsignedInt(uval: nat, endian: Endian)
    | Short(val: int, endian: Endian)
    | UnsignedShort(uval: nat, endian: Endian)
    | Byte(val: int)
    | UnsignedByte(uval: nat)
    | Boolean(b: bool)
    | Bytes(bytes: seq<byte>)
    | Str(text: string, nullTerminated: bool)

  /** `RawValue::String` as deserialised: `null_terminated` defaults to false. */
  function StrDefault(text: string): (v: RawValue)
    ensures v.Str? && v.text == text && !v.nullTerminated
  {
    Str(text, false)
  }

  function Pow256(n: nat): (p: nat)
    ensures p >= 1
  {
    if n == 0 then 1 else 256 * Pow256(n - 1)
  }

  /** The Rust type of each integer variant bounds its value. */
  predicate InRange(v: RawValue)
  {
    match v
    case Int(x, _) => -0x8000_0000 <= x < 0x8000_0000
    case UnsignedInt(x, _) => x < 0x1_0000_0000
    case Short(x, _) => -0x8000 <= x < 0x8000
    case UnsignedShort(x, _) => x < 0x1_0000
    case Byte(x) => -0x80 <= x < 0x80
    case UnsignedByte(x) => x < 0x100
    case _ => true
  }

  /** Two's complement of `x` in `width` bytes. */
  function Unsigned(x: int, width: nat): (u: nat)
    requires -(Pow256(width) as int) <= x < Pow256(width)
    ensures x >= 0 ==> u == x
  {
    if x < 0 then x + Pow256(width) else x
  }

  // ---------------------------------------------------------------------
  // Byte orders

  /** `to_le_bytes`: least significant byte first. */
  function LeBytes(n: nat, width: nat): (r: seq<byte>)
    ensures |r| == width
  {
    if width == 0 then [] else [(n % 256) as byte] + LeBytes(n / 256, width - 1)
  }

  /** `to_be_bytes`: most significant byte first. */
  function BeBytes(n: nat, width: nat): (r: seq<byte>)
    ensures |r| == width
  {
    if width == 0 then [] else BeBytes(n / 256, width - 1) + [(n % 256) as byte]
  }

  /** The number little-endian bytes denote. */
  function LeValue(bs: seq<byte>): nat
  {
    if bs == [] then 0 else bs[0] as nat + 256 * LeValue(bs[1..])
  }

  function Reverse(bs: seq<byte>): (r: seq<byte>)
    ensures |r| == |bs|
  {
    if bs == [] then [] else Reverse(bs[1..]) + [bs[0]]
  }

  /** Decoding little-endian bytes gives back the number. */
  lemma {:induction false} LeBytesRoundTrip(n: nat, width: nat)
    requires n < Pow256(width)
    ensures LeValue(LeBytes(n, width)) == n
  {
    if width > 0 {
      var r := LeBytes(n, width);
      assert r[1..] == LeBytes(n / 256, width - 1);
      LeBytesRoundTrip(n / 256, width - 1);
    }
  }

  /** The big-endian layout is the little-endian one reversed. */
  lemma {:induction false} BeIsReversedLe(n: nat, width: nat)
    ensures BeBytes(n, width) == Reverse(LeBytes(n, width))
  {
    if width > 0 {
      var le := LeBytes(n, width);
      assert le[1..] == LeBytes(n / 256, width - 1);
      BeIsReversedLe(n / 256, width - 1);
    }
  }

  function Ordered(n: nat, width: nat, e: Endian): (r: seq<byte>)
    ensures |r| == width
  {
    match e
    case Big => BeBytes(n, width)
    case Little => LeBytes(n, width)
  }

  // ---------------------------------------------------------------------
  // UTF-8

  /** The UTF-8 encoding of one Unicode scalar value. */
  function Utf8Char(c: char): (r: seq<byte>)
    ensures 1 <= |r| <= 4
    ensures |r| == 1 <==> (c as int) < 0x80
    ensures |r| > 1 ==> forall i :: 0 <= i < |r| ==> r[i] >= 0x80
  {
    var x := c as int;
    if x < 0x80 then [x as byte]
    else if x < 0x800 then [(0xC0 + x / 0x40) as byte, (0x80 + x % 0x40) as byte]
    else if x < 0x1_0000 then
      [(0xE0 + x / 0x1000) as byte, (0x80 + x / 0x40 % 0x40) as byte, (0x80 + x % 0x40) as byte]
    else
      [(0xF0 + x / 0x4_0000) as byte, (0x80 + x / 0x1000 % 0x40) as byte,
       (0x80 + x / 0x40 % 0x40) as byte, (0x80 + x % 0x40) as byte]
  }

  /** `as_bytes` of a Rust string: the UTF-8 encoding of its characters, in order. */
  function Utf8(s: string): (r: seq<byte>)
    ensures |r| >= |s|
  {
    if s == [] then [] else Utf8Char(s[0]) + Utf8(s[1..])
  }

  /** ASCII text is encoded byte for byte. */
  lemma {:induction false} Utf8OfAscii(s: string)
    requires forall i :: 0 <= i < |s| ==> (s[i] as int) < 0x80
    ensures |Utf8(s)| == |s|
    ensures forall i :: 0 <= i < |s| ==> Utf8(s)[i] as int == s[i] as int
  {
    if s != [] {
      Utf8OfAscii(s[1..]);
    }
  }

  /** A zero byte appears in the encoding exactly where a NUL character is in the text. */
  lemma {:induction false} Utf8ZeroFree(s: string)
    ensures (exists i :: 0 <= i < |Utf8(s)| && Utf8(s)[i] == 0) <==> (exists j :: 0 <= j < |s| && s[j] == '\0')
  {
    if s != [] {
      Utf8ZeroFree(s[1..]);
      var head := Utf8Char(s[0]);
      var tail := Utf8(s[1..]);
      assert Utf8(s) == head + tail;
      if exists j :: 0 <= j < |s| && s[j] == '\0' {
        var j :| 0 <= j < |s| && s[j] == '\0';
        if j == 0 {
          assert Utf8(s)[0] == 0;
        } else {
          assert s[1..][j - 1] == '\0';
          var i :| 0 <= i < |tail| && tail[i] == 0;
          assert Utf8(s)[|head| + i] == 0;
        }
      } else {
        assert forall j :: 0 <= j < |s[1..]| ==> s[1..][j] == s[j + 1];
        forall i | 0 <= i < |Utf8(s)|
          ensures Utf8(s)[i] != 0
        {
          if i >= |head| {
            assert Utf8(s)[i] == tail[i - |head|];
          }
        }
      }
    }
  }

  // ---------------------------------------------------------------------
  // to_bytes

  /** `RawValue::to_bytes`. */
  function ToBytes(v: RawValue): (r: seq<byte>)
    requires InRange(v)
    ensures (v.Int? || v.UnsignedInt?) ==> |r| == 4
    ensures (v.Short? || v.UnsignedShort?) ==> |r| == 2
    ensures (v.Byte? || v.UnsignedByte? || v.Boolean?) ==> |r| == 1
    ensures v.Boolean? ==> r == [if v.b then 1 else 0]
    ensures v.Bytes? ==> r == v.bytes
    ensures v.Str? ==> r == Utf8(v.text) + (if v.nullTerminated then [0] else [])
  {
    match v
    case Int(x, e) => Ordered(Unsigned(x, 4), 4, e)
    case UnsignedInt(x, e) => Ordered(x, 4, e)
    case Short(x, e) => Ordered(Unsigned(x, 2), 2, e)
    case UnsignedShort(x, e) => Ordered(x, 2, e)
    case Byte(x) => LeBytes(Unsigned(x, 1), 1)
    case UnsignedByte(x) => LeBytes(x, 1)
    case Boolean(b) => [if b then 1 else 0]
    case Bytes(bs) => bs
    case Str(s, terminated) =>
      var output := Utf8(s);
      if terminated then output + [0] else output
  }

  /** The value an integer encoding denotes, read back in its byte order and type. */
  function DecodedInt(v: RawValue): int
    requires InRange(v) && !v.Boolean? && !v.Bytes? && !v.Str?
  {
    var bs := ToBytes(v);
    var width := |bs|;
    var le := if (v.Int? || v.UnsignedInt? || v.Short? || v.UnsignedShort?) && v.endian.Big? then Reverse(bs) else bs;
    var u := LeValue(le);
    if (v.Int? || v.Short? || v.Byte?) && u >= Pow256(width) / 2 then u - Pow256(width) else u
  }

  lemma {:induction false} ReverseReverse(bs: seq<byte>)
    ensures Reverse(Reverse(bs)) == bs
  {
    if bs != [] {
      ReverseReverse(bs[1..]);
      ReverseAppend(Reverse(bs[1..]), [bs[0]]);
    }
  }

  lemma {:induction false} ReverseAppend(a: seq<byte>, b: seq<byte>)
    ensures Reverse(a + b) == Reverse(b) + Reverse(a)
  {
    if a == [] {
      assert a + b == b;
    } else {
      assert (a + b)[1..] == a[1..] + b;
      assert (a + b)[0] == a[0];
      ReverseAppend(a[1..], b);
    }
  }

  /** Every integer encoding decodes, in its own byte order and signedness, to the value. */
  lemma IntegerRoundTrip(v: RawValue)
    requires InRange(v) && !v.Boolean? && !v.Bytes? && !v.Str?
    ensures (v.Int? || v.Short? || v.Byte?) ==> DecodedInt(v) == v.val
    ensures (v.UnsignedInt? || v.UnsignedShort? || v.UnsignedByte?) ==> DecodedInt(v) == v.uval
  {
    var width := |ToBytes(v)|;
    var n := match v
      case Int(x, _) => Unsigned(x, 4)
      case Short(x, _) => Unsigned(x, 2)
      case Byte(x) => Unsigned(x, 1)
      case UnsignedInt(x, _) => x
      case UnsignedShort(x, _) => x
      case UnsignedByte(x) => x;
    assert Pow256(1) == 256 && Pow256(2) == 0x1_0000 && Pow256(4) == 0x1_0000_0000 by {
      assert Pow256(3) == 0x100_0000;
    }
    LeBytesRoundTrip(n, width);
    if (v.Int? || v.UnsignedInt? || v.Short? || v.UnsignedShort?) && v.endian.Big? {
      BeIsReversedLe(n, width);
      ReverseReverse(LeBytes(n, width));
    }
  }

  /** The two byte orders of the same integer are reversals of each other. */
  lemma BigIsReversedLittle(v: RawValue)
    requires InRange(v) && (v.Int? || v.UnsignedInt? || v.Short? || v.UnsignedShort?)
    ensures ToBytes(v.(endian := Big)) == Reverse(ToBytes(v.(endian := Little)))
  {
    match v
    case Int(x, _) => BeIsReversedLe(Unsigned(x, 4), 4);
    case UnsignedInt(x, _) => BeIsReversedLe(x, 4);
    case Short(x, _) => BeIsReversedLe(Unsigned(x, 2), 2);
    case UnsignedShort(x, _) => BeIsReversedLe(x, 2);
  }

  /** A null-terminated string carries exactly one zero byte, at its end, when the text has no NUL. */
  lemma NullTerminatedHasOneZero(s: string)
    requires forall j :: 0 <= j < |s| ==> s[j] != '\0'
    ensures var r := ToBytes(Str(s, true));
            r[|r| - 1] == 0 && forall i :: 0 <= i < |r| - 1 ==> r[i] != 0
  {
    Utf8ZeroFree(s);
    var r := ToBytes(Str(s, true));
    assert r == Utf8(s) + [0];
    forall i | 0 <= i < |r| - 1
      ensures r[i] != 0
    {
      assert r[i] == Utf8(s)[i];
    }
  }

  // ---------------------------------------------------------------------
  // VecExt::to_bytes

  predicate AllInRange(vs: seq<RawValue>)
  {
    forall i :: 0 <= i < |vs| ==> InRange(vs[i])
  }

  /** The encodings of `vs`, one after the other. */
  function Encoded(vs: seq<RawValue>): seq<byte>
    requires AllInRange(vs)
  {
    if vs == [] then [] else Encoded(vs[..|vs| - 1]) + ToBytes(vs[|vs| - 1])
  }

  /** Encoding a concatenation is concatenating the encodings. */
  lemma {:induction false} EncodedAppend(a: seq<RawValue>, b: seq<RawValue>)
    requires AllInRange(a) && AllInRange(b)
    ensures AllInRange(a + b) && Encoded(a + b) == Encoded(a) + Encoded(b)
  {
    assert AllInRange(a + b) by {
      forall i | 0 <= i < |a + b| ensures InRange((a + b)[i]) {
        if i >= |a| { assert (a + b)[i] == b[i - |a|]; }
      }
    }
    if b == [] {
      assert a + b == a;
    } else {
      var b0 := b[..|b| - 1];
      assert (a + b)[..|a + b| - 1] == a + b0;
      assert (a + b)[|a + b| - 1] == b[|b| - 1];
      EncodedAppend(a, b0);
    }
  }

  /** `VecExt::to_bytes`: each value's encoding appended to the output in turn. */
  method ToBytesAll(vs: seq<RawValue>) returns (output: seq<byte>)
    requires AllInRange(vs)
    ensures output == Encoded(vs)
  {
    output := [];
    for i := 0 to |vs|
      invariant output == Encoded(vs[..i])
    {
      assert vs[..i + 1][..i] == vs[..i];
      output := output + ToBytes(vs[i]);
    }
    assert vs[..|vs|] == vs;
  }
}
