/**
 * The encoding of multipart messages (deps/cppzmq/zmq_addon.hpp:77-102, 192-302), which
 * follows ZeroMQ RFC 50: each part is its size and then its bytes.  A size below 255 takes
 * one byte; any other is the byte 255 and four bytes, most significant first.
 */
module MultipartFormat {
  import opened Basics

  type byte = x: int | 0 <= x < 256
  type Part = seq<byte>

  const MAX_PART := 0xFFFF_FFFF

  function U32(n: nat): (b: seq<byte>)
    requires n <= MAX_PART
    ensures |b| == 4
  {
    [n / 0x100_0000, n / 0x1_0000 % 256, n / 256 % 256, n % 256]
  }

  function FromU32(b: seq<byte>): (n: nat)
    requires |b| == 4
    ensures n <= MAX_PART
  {
    var b0: int, b1: int, b2: int, b3: int := b[0], b[1], b[2], b[3];
    b0 * 0x100_0000 + b1 * 0x1_0000 + b2 * 256 + b3
  }

  /** The digits of a number to base 256, the most significant first. */
  predicate BigEndian(b0: int, b1: int, b2: int, b3: int, n: int) {
    n == b0 * 0x100_0000 + b1 * 0x1_0000 + b2 * 0x100 + b3
  }

  /** The bytes written are the digits of the number, and the number read is that of the digits. */
  lemma MostSignificantFirst(n: nat, b: seq<byte>)
    requires n <= MAX_PART && |b| == 4
    ensures U32(n) == b <==> BigEndian(b[0], b[1], b[2], b[3], n)
    ensures FromU32(b) == n <==> BigEndian(b[0], b[1], b[2], b[3], n)
  {
    NetworkOrder(n);
    NetworkOrderInverse(b);
  }

  lemma NetworkOrder(n: nat)
    requires n <= MAX_PART
    ensures FromU32(U32(n)) == n
  {
    Digits(n);
    Digits(n / 256);
    Digits(n / 0x1_0000);
  }

  lemma Digits(n: nat)
    ensures n == n / 256 * 256 + n % 256
    ensures n / 256 / 256 == n / 0x1_0000 && n / 256 / 0x1_0000 == n / 0x100_0000 && n / 0x1_0000 / 256 == n / 0x100_0000
  {
  }

  lemma NetworkOrderInverse(b: seq<byte>)
    requires |b| == 4
    ensures U32(FromU32(b)) == b
  {
    var n := FromU32(b);
    var b0: int, b1: int, b2: int, b3: int := b[0], b[1], b[2], b[3];
    var h2 := b0 * 256 + b1;
    var h1 := h2 * 256 + b2;
    Division(n, h1, 256, b3);
    Division(h1, h2, 256, b2);
    Division(h2, b0, 256, b1);
    Digits(n);
  }

  /** One part on the wire, in the one-byte or the five-byte form. */
  datatype Frame = Short(data: Part) | Long(data: Part)

  predicate WellFormed(f: Frame) {
    |f.data| <= if f.Short? then 254 else MAX_PART
  }

  predicate AllWellFormed(fs: seq<Frame>) {
    forall i :: 0 <= i < |fs| ==> WellFormed(fs[i])
  }

  function Header(f: Frame): seq<byte>
    requires WellFormed(f)
  {
    if f.Short? then [|f.data|] else [255] + U32(|f.data|)
  }

  function Wire(f: Frame): seq<byte>
    requires WellFormed(f)
  {
    Header(f) + f.data
  }

  function Serialized(fs: seq<Frame>): seq<byte>
    requires AllWellFormed(fs)
  {
    if fs == [] then [] else Wire(fs[0]) + Serialized(fs[1..])
  }

  function Parts(fs: seq<Frame>): (ps: seq<Part>)
    ensures |ps| == |fs| && forall i :: 0 <= i < |fs| ==> ps[i] == fs[i].data
  {
    seq(|fs|, i requires 0 <= i < |fs| => fs[i].data)
  }

  /** The bytes of a part on the wire: its size and its data. */
  lemma WireLayout(f: Frame)
    requires WellFormed(f)
    ensures var w := Wire(f);
            if f.Short? then |w| == 1 + |f.data| && w[0] == |f.data| && w[1..] == f.data
            else |w| == 5 + |f.data| && w[0] == 255 && BigEndian(w[1], w[2], w[3], w[4], |f.data|) && w[5..] == f.data
  {
    if f.Long? { MostSignificantFirst(|f.data|, U32(|f.data|)); }
  }

  // ---------------------------------------------------------------- encoding

  predicate Encodable(parts: seq<Part>) {
    forall i :: 0 <= i < |parts| ==> |parts[i]| <= MAX_PART
  }

  /** The form that the encoder chooses. */
  function Chosen(p: Part): Frame {
    if |p| < 255 then Short(p) else Long(p)
  }

  function AllChosen(parts: seq<Part>): (fs: seq<Frame>)
    requires Encodable(parts)
    ensures AllWellFormed(fs) && |fs| == |parts|
    ensures forall i :: 0 <= i < |parts| ==> fs[i] == Chosen(parts[i])
  {
    seq(|parts|, i requires 0 <= i < |parts| => Chosen(parts[i]))
  }

  function Encoded(parts: seq<Part>): seq<byte>
    requires Encodable(parts)
  {
    Serialized(AllChosen(parts))
  }

  lemma EncodedFirst(parts: seq<Part>)
    requires Encodable(parts) && parts != []
    ensures Encoded(parts) == Wire(Chosen(parts[0])) + Encoded(parts[1..])
  {
    assert AllChosen(parts)[1..] == AllChosen(parts[1..]);
  }

  /** A part takes its size in one byte if that is below 255, and in five otherwise. */
  lemma EncodedOne(p: Part)
    requires |p| <= MAX_PART
    ensures Encodable([p]) && Encoded([p]) == Wire(if |p| < 255 then Short(p) else Long(p))
  {
    EncodedFirst([p]);
    assert Encoded([]) == [];
  }

  /** The parts are written one after the other. */
  lemma {:induction false} EncodedJoins(a: seq<Part>, b: seq<Part>)
    requires Encodable(a) && Encodable(b)
    ensures Encodable(a + b) && Encoded(a + b) == Encoded(a) + Encoded(b)
    decreases |a|
  {
    if a == [] {
      assert a + b == b && Encoded(a) == [];
    } else {
      EncodedJoins(a[1..], b);
      assert (a + b)[1..] == a[1..] + b;
      EncodedFirst(a);
      EncodedFirst(a + b);
      Regroup(Wire(Chosen(a[0])), Encoded(a[1..]), Encoded(b));
    }
  }

  // ---------------------------------------------------------------- parsing

  /** The frame at the front of some bytes, if a whole one is there. */
  function FirstFrame(s: seq<byte>): Option<Frame> {
    if s == [] then None
    else if s[0] < 255 then
      if |s| - 1 < s[0] then None else Some(Short(s[1..1 + s[0]]))
    else if |s| - 1 < 4 then None
    else
      var n := FromU32(s[1..5]);
      if |s| - 5 < n then None else Some(Long(s[5..5 + n]))
  }

  /** A frame is found exactly where one was written. */
  lemma FirstFrameIff(s: seq<byte>, f: Frame)
    ensures FirstFrame(s) == Some(f) <==> WellFormed(f) && Wire(f) <= s
  {
    if FirstFrame(s) == Some(f) {
      FrameFound(s);
    }
    if WellFormed(f) && Wire(f) <= s {
      FrameStands(s, f);
    }
  }

  lemma FrameFound(s: seq<byte>)
    requires FirstFrame(s).Some?
    ensures var f := FirstFrame(s).value; WellFormed(f) && Wire(f) <= s
  {
    var f := FirstFrame(s).value;
    if f.Long? {
      NetworkOrderInverse(s[1..5]);
      assert Header(f) == s[..5];
      assert s[..5] + f.data == s[..5 + |f.data|];
    } else {
      assert Wire(f) == s[..1 + |f.data|];
    }
  }

  lemma FrameStands(s: seq<byte>, f: Frame)
    requires WellFormed(f) && Wire(f) <= s
    ensures FirstFrame(s) == Some(f)
  {
    var h := |Header(f)|;
    assert s[..|Wire(f)|] == Wire(f);
    assert s[h..h + |f.data|] == f.data;
    assert s[..h] == Header(f);
    if f.Long? {
      assert s[1..5] == s[..h][1..];
      NetworkOrder(|f.data|);
    }
  }

  function FrameLength(f: Frame): nat {
    |f.data| + (if f.Short? then 1 else 5)
  }

  lemma WireLength(f: Frame)
    requires WellFormed(f)
    ensures |Wire(f)| == FrameLength(f)
  {
  }

  lemma FrameFits(s: seq<byte>)
    requires FirstFrame(s).Some?
    ensures FrameLength(FirstFrame(s).value) <= |s|
  {
  }

  /** All frames that can be read from the front, and the bytes that are left. */
  function Parsed(s: seq<byte>): (seq<Frame>, seq<byte>)
    decreases |s|
  {
    match FirstFrame(s)
    case None => ([], s)
    case Some(f) =>
      FrameFits(s);
      var (fs, rest) := Parsed(s[FrameLength(f)..]);
      ([f] + fs, rest)
  }

  lemma SerializedFirst(fs: seq<Frame>, rest: seq<byte>)
    requires AllWellFormed(fs) && fs != []
    ensures Serialized(fs) + rest == Wire(fs[0]) + (Serialized(fs[1..]) + rest)
  {
    assert Wire(fs[0]) + Serialized(fs[1..]) + rest == Wire(fs[0]) + (Serialized(fs[1..]) + rest);
  }

  lemma FrameSplits(s: seq<byte>, f: Frame)
    requires FirstFrame(s) == Some(f)
    ensures WellFormed(f) && FrameLength(f) <= |s| && s == Wire(f) + s[FrameLength(f)..]
  {
    FrameFound(s);
    WireLength(f);
  }

  /** Parsing loses no byte, and stops only where no whole frame follows. */
  lemma {:induction false} ParsedSound(s: seq<byte>)
    ensures var (fs, rest) := Parsed(s);
            AllWellFormed(fs) && Serialized(fs) + rest == s && FirstFrame(rest) == None
    decreases |s|
  {
    if FirstFrame(s).Some? {
      var f := FirstFrame(s).value;
      FrameSplits(s, f);
      var tail := s[FrameLength(f)..];
      ParsedSound(tail);
      var (fs, rest) := Parsed(tail);
      assert ([f] + fs)[1..] == fs;
      SerializedFirst([f] + fs, rest);
    }
  }

  lemma ParsedStep(f: Frame, tail: seq<byte>)
    requires WellFormed(f)
    ensures Parsed(Wire(f) + tail) == ([f] + Parsed(tail).0, Parsed(tail).1)
  {
    var s := Wire(f) + tail;
    FrameStands(s, f);
    WireLength(f);
    assert s[FrameLength(f)..] == tail;
  }

  lemma HeadAndTail(fs: seq<Frame>)
    requires fs != []
    ensures [fs[0]] + fs[1..] == fs
  {
  }

  /** There is only one way to read a sequence of bytes. */
  lemma {:induction false} ParsedUnique(fs: seq<Frame>, rest: seq<byte>)
    requires AllWellFormed(fs) && FirstFrame(rest) == None
    ensures Parsed(Serialized(fs) + rest) == (fs, rest)
    decreases |fs|
  {
    if fs == [] {
      assert Serialized(fs) + rest == rest;
    } else {
      ParsedUnique(fs[1..], rest);
      SerializedFirst(fs, rest);
      ParsedStep(fs[0], Serialized(fs[1..]) + rest);
      HeadAndTail(fs);
    }
  }

  // ---------------------------------------------------------------- the main results

  /** Decoding an encoded list gives the list back. */
  lemma RoundTrip(parts: seq<Part>)
    requires Encodable(parts)
    ensures Parsed(Encoded(parts)).1 == [] && Parts(Parsed(Encoded(parts)).0) == parts
  {
    ParsedUnique(AllChosen(parts), []);
    assert Encoded(parts) + [] == Encoded(parts);
  }

  /** Re-encoding is never longer, and as long only if the bytes were canonical. */
  lemma {:induction false} NeverLonger(fs: seq<Frame>)
    requires AllWellFormed(fs)
    ensures Encodable(Parts(fs)) && |Encoded(Parts(fs))| <= |Serialized(fs)|
    ensures |Encoded(Parts(fs))| == |Serialized(fs)| <==> Encoded(Parts(fs)) == Serialized(fs)
    ensures Encoded(Parts(fs)) == Serialized(fs) <==> forall i :: 0 <= i < |fs| ==> fs[i] == Chosen(fs[i].data)
    decreases |fs|
  {
    if fs != [] {
      NeverLonger(fs[1..]);
      assert Parts(fs)[1..] == Parts(fs[1..]);
      EncodedFirst(Parts(fs));
      WireLength(fs[0]);
      WireLength(Chosen(fs[0].data));
      ChosenOf(fs);
    }
  }

  /** Whatever bytes the decoder accepts, encoding the result again is never longer, and
      gives the same bytes exactly when every size was written in the shorter form. */
  lemma ReEncoding(s: seq<byte>)
    requires Parsed(s).1 == []
    ensures var (fs, _) := Parsed(s);
            && Encodable(Parts(fs)) && |Encoded(Parts(fs))| <= |s|
            && (Encoded(Parts(fs)) == s <==> |Encoded(Parts(fs))| == |s|)
            && (Encoded(Parts(fs)) == s <==> forall i :: 0 <= i < |fs| ==> fs[i] == Chosen(fs[i].data))
  {
    ParsedSound(s);
    var fs := Parsed(s).0;
    assert Serialized(fs) + [] == Serialized(fs);
    NeverLonger(fs);
  }

  lemma ChosenOf(fs: seq<Frame>)
    requires fs != []
    ensures (forall i :: 0 <= i < |fs| ==> fs[i] == Chosen(fs[i].data))
       <==> fs[0] == Chosen(fs[0].data) && forall i :: 0 <= i < |fs[1..]| ==> fs[1..][i] == Chosen(fs[1..][i].data)
  {
    assert forall i :: 1 <= i < |fs| ==> fs[i] == fs[1..][i - 1];
  }
}

/** The encoder and the decoder, as they work through their buffers. */
module Multipart {
  import opened Basics
  import opened MultipartFormat

  datatype Result<T> = Ok(value: T) | RangeError

  datatype Malformed = SizeOverflow | PartOverflow

  function FrameSize(p: Part): nat {
    |p| + (if |p| < 255 then 1 else 5)
  }

  function SizeOf(parts: seq<Part>): nat {
    if parts == [] then 0 else FrameSize(parts[0]) + SizeOf(parts[1..])
  }

  lemma {:induction false} EncodedSize(parts: seq<Part>)
    requires Encodable(parts)
    ensures |Encoded(parts)| == SizeOf(parts)
  {
    if parts != [] {
      EncodedFirst(parts);
      EncodedSize(parts[1..]);
    }
  }

  /** The first pass: the size of the whole message, or the range error. */
  method CheckSizes(parts: seq<Part>) returns (size: Result<nat>)
    ensures size == if Encodable(parts) then Ok(SizeOf(parts)) else RangeError
  {
    var total := 0;
    for i := 0 to |parts|
      invariant Encodable(parts[..i]) && total + SizeOf(parts[i..]) == SizeOf(parts)
    {
      if |parts[i]| > MAX_PART {
        return RangeError;
      }
      assert parts[i..][1..] == parts[i + 1..];
      total := total + FrameSize(parts[i]);
    }
    return Ok(total);
  }

  method CopyInto(buf: array<byte>, pos: nat, data: seq<byte>)
    requires pos + |data| <= buf.Length
    modifies buf
    ensures buf[..pos + |data|] == old(buf[..pos]) + data
  {
    for i := 0 to |data|
      invariant buf[..pos + i] == old(buf[..pos]) + data[..i]
    {
      buf[pos + i] := data[i];
    }
  }

  method WriteNetworkOrder(buf: array<byte>, pos: nat, value: nat)
    requires pos + 4 <= buf.Length && value <= MAX_PART
    modifies buf
    ensures buf[..pos + 4] == old(buf[..pos]) + U32(value)
    ensures BigEndian(buf[pos], buf[pos + 1], buf[pos + 2], buf[pos + 3], value)
  {
    MostSignificantFirst(value, U32(value));
    buf[pos] := value / 0x100_0000;
    buf[pos + 1] := value / 0x1_0000 % 256;
    buf[pos + 2] := value / 256 % 256;
    buf[pos + 3] := value % 256;
  }

  /** The size, in the shorter form that fits. */
  method WriteSize(buf: array<byte>, start: nat, part: Part) returns (pos: nat)
    requires |part| <= MAX_PART && start + FrameSize(part) <= buf.Length
    modifies buf
    ensures pos + |part| == start + FrameSize(part)
    ensures buf[..pos] == old(buf[..start]) + Header(Chosen(part))
  {
    pos := start;
    if |part| < 255 {
      buf[pos] := |part|;
      pos := pos + 1;
    } else {
      buf[pos] := 255;
      pos := pos + 1;
      WriteNetworkOrder(buf, pos, |part|);
      pos := pos + 4;
    }
  }

  lemma WireOf(before: seq<byte>, part: Part)
    requires |part| <= MAX_PART
    ensures before + Header(Chosen(part)) + part == before + Wire(Chosen(part))
  {
    assert before + (Header(Chosen(part)) + part) == before + Header(Chosen(part)) + part;
  }

  method WritePart(buf: array<byte>, start: nat, part: Part) returns (pos: nat)
    requires |part| <= MAX_PART && start + FrameSize(part) <= buf.Length
    modifies buf
    ensures pos == start + FrameSize(part)
    ensures buf[..pos] == old(buf[..start]) + Wire(Chosen(part))
  {
    pos := WriteSize(buf, start, part);
    WireOf(old(buf[..start]), part);
    CopyInto(buf, pos, part);
    pos := pos + |part|;
  }

  lemma WriteStep(parts: seq<Part>, i: nat, done: seq<byte>)
    requires Encodable(parts) && i < |parts|
    ensures SizeOf(parts[i..]) == FrameSize(parts[i]) + SizeOf(parts[i + 1..])
    ensures done + Encoded(parts[i..]) == done + Wire(Chosen(parts[i])) + Encoded(parts[i + 1..])
  {
    assert parts[i..][1..] == parts[i + 1..];
    EncodedFirst(parts[i..]);
    assert done + (Wire(Chosen(parts[i])) + Encoded(parts[i + 1..]))
        == done + Wire(Chosen(parts[i])) + Encoded(parts[i + 1..]);
  }

  /** The second pass ends exactly at the end of the buffer. */
  method WriteParts(buf: array<byte>, parts: seq<Part>)
    requires Encodable(parts) && buf.Length == SizeOf(parts)
    modifies buf
    ensures buf[..] == Encoded(parts)
  {
    var pos: nat := 0;
    assert parts[0..] == parts && [] + Encoded(parts) == Encoded(parts);
    for i := 0 to |parts|
      invariant pos + SizeOf(parts[i..]) == buf.Length
      invariant buf[..pos] + Encoded(parts[i..]) == Encoded(parts)
    {
      WriteStep(parts, i, buf[..pos]);
      pos := WritePart(buf, pos, parts[i]);
    }
    assert buf[..pos] + [] == buf[..];
  }

  /** The message holds exactly the encoding; the only failure is a part whose size does
      not fit into 32 bits. */
  method Encode(parts: seq<Part>) returns (message: Result<array<byte>>)
    ensures message.Ok? <==> forall i :: 0 <= i < |parts| ==> |parts[i]| < 0x1_0000_0000
    ensures message.Ok? ==> Encodable(parts) && message.value[..] == Encoded(parts)
  {
    var size := CheckSizes(parts);
    if size == RangeError { return RangeError; }
    var buf := new byte[size.value];
    WriteParts(buf, parts);
    return Ok(buf);
  }

  /** The frames read up to a position, and what is still there, make up the whole. */
  ghost predicate ReadUpTo(s: seq<byte>, pos: nat, frames: seq<Frame>) {
    && pos <= |s|
    && Parsed(s).0 == frames + Parsed(s[pos..]).0
    && Parsed(s).1 == Parsed(s[pos..]).1
  }

  lemma ReadStart(s: seq<byte>)
    ensures ReadUpTo(s, 0, [])
  {
    assert s[0..] == s && [] + Parsed(s).0 == Parsed(s).0;
  }

  lemma TailOf(s: seq<byte>, pos: nat, n: nat)
    requires pos + n <= |s|
    ensures s[pos..][n..] == s[pos + n..]
  {
  }

  lemma ReadMore(s: seq<byte>, pos: nat, frames: seq<Frame>, f: Frame)
    requires ReadUpTo(s, pos, frames) && FirstFrame(s[pos..]) == Some(f)
    ensures ReadUpTo(s, pos + FrameLength(f), frames + [f])
  {
    FrameFits(s[pos..]);
    TailOf(s, pos, FrameLength(f));
    Regroup(frames, [f], Parsed(s[pos + FrameLength(f)..]).0);
  }

  lemma ReadEnd(s: seq<byte>, pos: nat, frames: seq<Frame>)
    requires ReadUpTo(s, pos, frames) && FirstFrame(s[pos..]) == None
    ensures Parsed(s) == (frames, s[pos..])
  {
    assert frames + [] == frames;
  }

  /** The data follow the size, which is one byte below 255, or four bytes behind a 255. */
  ghost predicate ReadsBytes(message: array<byte>, start: nat, data: Part)
    reads message
    requires start < message.Length
  {
    var size := |data|;
    if message[start] < 255
    then && start + 1 + size <= message.Length && data == message[start + 1..start + 1 + size]
         && size == message[start]
    else && start + 5 + size <= message.Length && data == message[start + 5..start + 5 + size]
         && BigEndian(message[start + 1], message[start + 2], message[start + 3], message[start + 4], size)
  }

  method ReadFrame(message: array<byte>, start: nat) returns (frame: Option<Frame>, error: Malformed)
    requires start < message.Length
    ensures frame == FirstFrame(message[start..])
    ensures frame == None ==> (error == SizeOverflow <==> message[start] == 255 && message.Length - start < 5)
    ensures frame.Some? ==> ReadsBytes(message, start, frame.value.data)
  {
    ghost var s := message[start..];
    error := PartOverflow;
    var pos := start;
    var size: nat := message[pos];
    pos := pos + 1;
    if size == 255 {
      if message.Length - pos < 4 { return None, SizeOverflow; }
      size := FromU32(message[pos..pos + 4]);
      pos := pos + 4;
      assert s[1..5] == message[start + 1..start + 5];
      if message.Length - pos < size { return None, PartOverflow; }
      assert s[5..5 + size] == message[pos..pos + size];
      return Some(Long(message[pos..pos + size])), PartOverflow;
    }
    if message.Length - pos < size { return None, PartOverflow; }
    assert s[1..1 + size] == message[pos..pos + size];
    frame := Some(Short(message[pos..pos + size]));
  }

  lemma PartsGrow(frames: seq<Frame>, f: Frame)
    ensures Parts(frames + [f]) == Parts(frames) + [f.data]
  {
  }

  /** The parts of the frames before a position have been read. */
  ghost predicate Reading(s: seq<byte>, pos: nat, frames: seq<Frame>, parts: seq<Part>) {
    ReadUpTo(s, pos, frames) && parts == Parts(frames)
  }

  lemma ReadingMore(s: seq<byte>, pos: nat, frames: seq<Frame>, parts: seq<Part>, f: Frame)
    requires Reading(s, pos, frames, parts) && FirstFrame(s[pos..]) == Some(f)
    ensures Reading(s, pos + FrameLength(f), frames + [f], parts + [f.data])
  {
    ReadMore(s, pos, frames, f);
    PartsGrow(frames, f);
  }

  lemma ReadingEnds(s: seq<byte>, pos: nat, frames: seq<Frame>, parts: seq<Part>)
    requires Reading(s, pos, frames, parts) && FirstFrame(s[pos..]) == None
    ensures parts == Parts(Parsed(s).0) && Parsed(s).1 == s[pos..]
  {
    ReadEnd(s, pos, frames);
  }

  /** The loop: reads parts up to the end, or up to the first incomplete frame. */
  method ReadParts(message: array<byte>)
    returns (pos: nat, parts: seq<Part>, error: Option<Malformed>, ghost frames: seq<Frame>)
    ensures Reading(message[..], pos, frames, parts) && FirstFrame(message[..][pos..]) == None
    ensures error == None <==> pos == message.Length
    ensures error == Some(SizeOverflow) <==> pos < message.Length < pos + 5 && message[pos] == 255
  {
    pos, parts, error, frames := 0, [], None, [];
    ghost var s := message[..];
    ReadStart(s);
    while pos < message.Length
      invariant Reading(s, pos, frames, parts)
      decreases message.Length - pos
    {
      var frame, why := ReadFrame(message, pos);
      assert message[pos..] == s[pos..];
      if frame == None {
        error := Some(why);
        return;
      }
      ReadingMore(s, pos, frames, parts, frame.value);
      frames := frames + [frame.value];
      parts := parts + [frame.value.data];
      pos := pos + FrameLength(frame.value);
    }
  }

  /** Accepts exactly the bytes that are whole frames to the end, and returns their parts;
      otherwise returns the parts before the first incomplete frame. */
  method Decode(message: array<byte>) returns (parts: seq<Part>, error: Option<Malformed>)
    ensures var (frames, rest) := Parsed(message[..]);
            && parts == Parts(frames) && (error == None <==> rest == [])
            && (error == Some(SizeOverflow) <==> 0 < |rest| < 5 && rest[0] == 255)
  {
    var pos;
    ghost var frames;
    pos, parts, error, frames := ReadParts(message);
    ReadingEnds(message[..], pos, frames, parts);
  }
}
