/** Length-prefixed frames: four bytes of big-endian length, then the payload. */
module Frames {
  import opened ByteOrder
  import opened Options

  const UINT32: nat := 0x1_0000_0000

  predicate IsUint32(n: int) { 0 <= n < UINT32 }

  /** `binary.BigEndian.PutUint32` */
  function BigEndian(v: nat): (h: Bytes)
    requires IsUint32(v)
    ensures |h| == 4
  {
    [v / 0x100_0000, v / 0x1_0000 % 0x100, v / 0x100 % 0x100, v % 0x100]
  }

  /** `binary.BigEndian.Uint32` */
  function Uint32(h: Bytes): (v: nat)
    requires |h| == 4
    ensures IsUint32(v)
  {
    var a: int, b: int, c: int, d: int := h[0], h[1], h[2], h[3];
    a * 0x100_0000 + b * 0x1_0000 + c * 0x100 + d
  }

  lemma BigEndianRoundTrip(v: nat)
    requires IsUint32(v)
    ensures Uint32(BigEndian(v)) == v
  {
    var a, b := v / 0x100, v / 0x1_0000;
    assert b == a / 0x100 && v / 0x100_0000 == b / 0x100;
  }

  /***** Specification *****/

  /** The length that the writer puts in the header: the conversion to uint32 wraps. */
  function HeaderLength(p: Bytes): nat { |p| % UINT32 }

  predicate Accepts(p: Bytes, maxSize: nat)
  {
    p != [] && HeaderLength(p) <= maxSize
  }

  function Frame(p: Bytes): Bytes { BigEndian(HeaderLength(p)) + p }

  /** The payload read from a stream, if any, and what is left of the stream. */
  function Read(s: Bytes, maxSize: nat): (Option<Bytes>, Bytes)
  {
    if |s| < 4 then (None, []) else
      var size := Uint32(s[..4]);
      if size == 0 || size > maxSize then (None, s[4..])
      else if |s| < 4 + size then (None, [])
      else (Some(s[4..4 + size]), s[4 + size..])
  }

  /***** The code *****/

  class Reader {
    var data: Bytes

    constructor (data: Bytes)
      ensures this.data == data
    {
      this.data := data;
    }

    /** `io.ReadFull`: fills the buffer, or consumes what there is and fails. */
    method ReadFull(buf: array<Byte>) returns (ok: bool)
      modifies this, buf
      ensures ok <==> buf.Length <= |old(data)|
      ensures ok ==> buf[..] == old(data)[..buf.Length] && data == old(data)[buf.Length..]
      ensures !ok ==> data == []
    {
      var n := if buf.Length <= |data| then buf.Length else |data|;
      for i := 0 to n
        invariant data == old(data)
        invariant buf[..i] == data[..i]
      {
        buf[i] := data[i];
      }
      ok := n == buf.Length;
      data := data[n..];
    }
  }

  class Writer {
    var data: Bytes

    constructor ()
      ensures data == []
    {
      data := [];
    }

    method Write(p: Bytes)
      modifies this
      ensures data == old(data) + p
    {
      data := data + p;
    }
  }

  method ReadFrame(r: Reader, maxSize: nat) returns (payload: Option<Bytes>)
    modifies r
    ensures (payload, r.data) == Read(old(r.data), maxSize)
  {
    var header := new Byte[4];
    var ok := r.ReadFull(header);
    if !ok {
      return None;
    }
    var size := Uint32(header[..]);
    if size == 0 || size > maxSize {
      return None;
    }
    ghost var s := old(r.data);
    assert header[..] == s[..4] && r.data == s[4..];
    var buf := new Byte[size];
    ok := r.ReadFull(buf);
    if !ok {
      return None;
    }
    assert s[4..][..size] == s[4..4 + size] && s[4..][size..] == s[4 + size..];
    payload := Some(buf[..]);
  }

  method WriteFrame(w: Writer, payload: Bytes, maxSize: nat) returns (ok: bool)
    modifies w
    ensures ok == Accepts(payload, maxSize)
    ensures w.data == old(w.data) + if ok then Frame(payload) else []
  {
    if payload == [] || |payload| % UINT32 > maxSize {
      return false;
    }
    var header := BigEndian(|payload| % UINT32);
    w.Write(header);
    w.Write(payload);
    ok := true;
  }

  /***** Round trips *****/

  lemma HeaderReads(p: Bytes, rest: Bytes)
    ensures var s := Frame(p) + rest;
            |s| == 4 + |p| + |rest| && Uint32(s[..4]) == HeaderLength(p) && s[4..] == p + rest
  {
    BigEndianRoundTrip(HeaderLength(p));
    assert (Frame(p) + rest)[..4] == BigEndian(HeaderLength(p));
  }

  /** The number that four header bytes stand for, the first one weighing most. */
  function Weight(s: Bytes): nat
    requires |s| >= 4
  {
    var a: int, b: int, c: int, d: int := s[0], s[1], s[2], s[3];
    a * 16_777_216 + b * 65_536 + c * 256 + d
  }

  /** What is read of any stream, in terms of its bytes. */
  lemma ReadExact(s: Bytes, maxSize: nat)
    ensures |s| < 4 ==> Read(s, maxSize) == (None, [])
    ensures |s| >= 4 && (Weight(s) == 0 || Weight(s) > maxSize) ==> Read(s, maxSize) == (None, s[4..])
    ensures |s| >= 4 && 0 < Weight(s) <= maxSize && |s| < 4 + Weight(s) ==> Read(s, maxSize) == (None, [])
    ensures |s| >= 4 && 0 < Weight(s) <= maxSize && |s| >= 4 + Weight(s) ==>
              Read(s, maxSize) == (Some(s[4..4 + Weight(s)]), s[4 + Weight(s)..])
  {
  }

  /** A payload that a header can count is refused if empty or too long, else written as its length and itself. */
  lemma WrittenExact(p: Bytes, maxSize: nat)
    requires |p| < UINT32
    ensures Accepts(p, maxSize) <==> 0 < |p| <= maxSize
    ensures |Frame(p)| == 4 + |p| && Weight(Frame(p)) == |p| && Frame(p)[4..] == p
  {
    HeaderReads(p, []);
    assert Frame(p) + [] == Frame(p);
  }

  /**
   An accepted payload is read back from the front of any stream exactly when its length fits
   the header; a longer one is cut off or refused.
   */
  lemma RoundTrip(p: Bytes, maxSize: nat, rest: Bytes)
    requires Accepts(p, maxSize)
    ensures Read(Frame(p) + rest, maxSize) == (Some(p), rest) <==> |p| < UINT32
  {
    HeaderReads(p, rest);
    var s := Frame(p) + rest;
    var size := HeaderLength(p);
    if |p| < UINT32 {
      assert s[4..4 + size] == (p + rest)[..size] == p;
      assert s[4 + size..] == s[4..][size..] == rest;
    } else {
      assert size < |p|;
      assert 4 + size <= |s|;
    }
  }

  /**
   A payload of 2^32 bytes or more that is accepted is refused by the reader or read back cut off,
   and the stream is out of step.
   */
  lemma LongPayloadIsCut(p: Bytes, maxSize: nat, rest: Bytes)
    requires Accepts(p, maxSize) && |p| >= UINT32
    ensures var n := HeaderLength(p);
            Read(Frame(p) + rest, maxSize) == if n == 0 then (None, p + rest) else (Some(p[..n]), p[n..] + rest)
  {
    HeaderReads(p, rest);
    var s, n := Frame(p) + rest, HeaderLength(p);
    assert s[4..] == p + rest;
    assert s[4..4 + n] == (p + rest)[..n] == p[..n];
    assert s[4 + n..] == (p + rest)[n..] == p[n..] + rest;
  }

  /** There is such a payload: one byte more than the header can count is read back as one byte. */
  lemma LongPayloadIsAccepted()
    ensures var p: Bytes := seq(UINT32 + 1, i => 0);
            Accepts(p, 1) && Read(Frame(p), 1).0 == Some([0])
  {
    var p: Bytes := seq(UINT32 + 1, i => 0);
    LongPayloadIsCut(p, 1, []);
    assert Frame(p) + [] == Frame(p);
    assert p[..1] == [0];
  }

  function WriteAll(ps: seq<Bytes>): Bytes
  {
    if ps == [] then [] else Frame(ps[0]) + WriteAll(ps[1..])
  }

  /** Reads frames until the stream is used up; none if a frame is refused. */
  function ReadAll(s: Bytes, maxSize: nat): Option<seq<Bytes>>
    decreases |s|
  {
    if s == [] then Some([]) else
      var (p, rest) := Read(s, maxSize);
      if p.None? then None else
        match ReadAll(rest, maxSize)
        case None => None
        case Some(ps) => Some([p.value] + ps)
  }

  /** Writing any list of payloads and reading repeatedly returns that list and uses up the stream. */
  lemma {:induction false} StreamRoundTrip(ps: seq<Bytes>, maxSize: nat)
    requires forall i | 0 <= i < |ps| :: Accepts(ps[i], maxSize) && |ps[i]| < UINT32
    ensures ReadAll(WriteAll(ps), maxSize) == Some(ps)
  {
    if ps == [] {
    } else {
      RoundTrip(ps[0], maxSize, WriteAll(ps[1..]));
      HeaderReads(ps[0], WriteAll(ps[1..]));
      StreamRoundTrip(ps[1..], maxSize);
      assert [ps[0]] + ps[1..] == ps;
    }
  }

  /** A frame that has not fully arrived is refused. */
  lemma ProperPrefixIsRefused(p: Bytes, maxSize: nat, k: nat)
    requires |p| < UINT32 && k < |Frame(p)|
    ensures Read(Frame(p)[..k], maxSize).0 == None
  {
    HeaderReads(p, []);
    assert Frame(p) + [] == Frame(p);
    if k >= 4 {
      assert Frame(p)[..k][..4] == Frame(p)[..4];
    }
  }
}
