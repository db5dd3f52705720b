/** The pixel streams of texture.cpp.  `TGAStreamRAW` reads one BGRA pixel
    per call; `TGAStreamRLE` decodes TGA run-length packets: a control byte
    whose top bit marks a run packet (one pixel repeated) or a raw packet
    (that many literal pixels), each holding (low 7 bits) + 1 pixels.
    Both read from the file as a byte sequence with a cursor. */
module TgaStreams {
  import opened Pixels
  import opened Bits

  // ---------------------------------------------------------------------
  // The RLE stream's state machine, as a value
  // ---------------------------------------------------------------------

  /** `TGAStreamRLE::State`. */
  datatype Mode = Unknown | Compressed | Uncompressed

  /** The RLE stream's fields `count_`, `state_`, `color_` with the file
      cursor. */
  datatype RleState = RleState(pos: nat, count: int, mode: Mode, color: Color)

  /** A fresh stream at offset pos: count_ 0, state_ Unknown, color_ 0. */
  function RleInit(pos: nat): (s: RleState)
    ensures s.pos == pos && s.count == 0
  {
    RleState(pos, 0, Unknown, Blank)
  }

  /** What holds between two calls of read(): at most 127 pixels of the
      current packet remain, and a packet is under way whenever any do. */
  predicate RleValid(s: RleState)
  {
    0 <= s.count <= 127 && (s.count > 0 ==> s.mode != Unknown)
  }

  /** The bytes the next read() consumes are in the file: a control byte and
      a colour when a packet starts, a colour inside a raw packet. */
  predicate CanStep(data: seq<byte>, s: RleState)
  {
    if s.count == 0 then s.pos + 5 <= |data|
    else s.mode == Uncompressed ==> s.pos + 4 <= |data|
  }

  /** `ctrl & 0x80` on a byte: the top bit, set exactly for 128..255. */
  predicate IsRunFlag(ctrl: byte)
  {
    ctrl >= 0x80
  }

  /** One call of `TGAStreamRLE::read`: the pixel returned and the new state. */
  function Step(data: seq<byte>, s: RleState): (r: (Color, RleState))
    requires CanStep(data, s)
    ensures r.0 == r.1.color
  {
    var s1 :=
      if s.count == 0 then
        var ctrl := data[s.pos];
        if IsRunFlag(ctrl) then
          RleState(s.pos + 5, ctrl % 0x80 + 1, Compressed, BgraAt(data, s.pos + 1))
        else
          RleState(s.pos + 1, ctrl % 0x80 + 1, Uncompressed, s.color)
      else s;
    var s2 :=
      if s1.mode == Uncompressed then RleState(s1.pos + 4, s1.count, s1.mode, BgraAt(data, s1.pos))
      else s1;
    (s2.color, s2.(count := s2.count - 1))
  }

  /** The flag test reads bit 7 of the control byte, and the packet length
      `(ctrl & 127) + 1` is 1..128. */
  lemma RunFlagIsTopBit(ctrl: byte)
    ensures IsRunFlag(ctrl) <==> HasBit(ctrl, 7)
    ensures 1 <= ctrl % 0x80 + 1 <= 128
  {
    assert Shr(ctrl, 7) <= 1 by {
      Pow2Values();
      OnesPow2(8);
      ShrBound(ctrl, 8, 7);
    }
    if IsRunFlag(ctrl) {
      Pow2Values();
      ShrAtLeast(ctrl, 7);
    } else if HasBit(ctrl, 7) {
      ShrPositive(ctrl, 7);
      Pow2Values();
    }
  }

  /** read() keeps 0 <= count_ <= 127 and a known packet kind. */
  lemma StepValid(data: seq<byte>, s: RleState)
    requires RleValid(s) && CanStep(data, s)
    ensures RleValid(Step(data, s).1)
  {
  }

  /** read() consumes the control byte exactly when count_ is 0; a run
      packet's colour is read with it, a raw packet reads 4 fresh bytes on
      every call, and inside a run packet nothing is read at all. */
  lemma StepConsumes(data: seq<byte>, s: RleState)
    requires RleValid(s) && CanStep(data, s)
    ensures var s' := Step(data, s).1;
      if s.count == 0 then
        s'.pos == s.pos + 5 && s'.count == data[s.pos] % 0x80 &&
        s'.mode == (if IsRunFlag(data[s.pos]) then Compressed else Uncompressed) &&
        s'.color == BgraAt(data, s.pos + 1)
      else
        s'.count == s.count - 1 && s'.mode == s.mode &&
        (s.mode == Uncompressed ==> s'.pos == s.pos + 4 && s'.color == BgraAt(data, s.pos)) &&
        (s.mode == Compressed ==> s'.pos == s.pos && s'.color == s.color)
  {
  }

  // ---------------------------------------------------------------------
  // Both streams behind one read-a-pixel contract
  // ---------------------------------------------------------------------

  /** The state of whichever stream `loadTGA` picked: the raw stream is
      just a cursor. */
  datatype Decoder = Raw(pos: nat) | Rle(rle: RleState)

  predicate CanNext(data: seq<byte>, d: Decoder)
  {
    match d
    case Raw(p) => p + 4 <= |data|
    case Rle(s) => CanStep(data, s)
  }

  /** `stream->read()`. */
  function Next(data: seq<byte>, d: Decoder): (r: (Color, Decoder))
    requires CanNext(data, d)
    ensures r.1.Raw? == d.Raw?
  {
    match d
    case Raw(p) => (BgraAt(data, p), Raw(p + 4))
    case Rle(s) => var (c, s') := Step(data, s); (c, Rle(s'))
  }

  /** What n reads in a row give: the pixels and the state after them, or
      Exhausted when one of them would read past the end of the file. */
  datatype Trace = Trace(pixels: seq<Color>, last: Decoder) | Exhausted

  function Run(data: seq<byte>, d: Decoder, n: nat): (t: Trace)
    ensures t.Trace? ==> |t.pixels| == n
  {
    if n == 0 then Trace([], d)
    else
      match Run(data, d, n - 1)
      case Exhausted => Exhausted
      case Trace(px, d') =>
        if CanNext(data, d') then
          var (c, d'') := Next(data, d');
          Trace(px + [c], d'')
        else Exhausted
  }

  /** One more read appends its pixel. */
  lemma RunSnoc(data: seq<byte>, d: Decoder, n: nat)
    requires Run(data, d, n).Trace? && CanNext(data, Run(data, d, n).last)
    ensures Run(data, d, n + 1) ==
      Trace(Run(data, d, n).pixels + [Next(data, Run(data, d, n).last).0],
            Next(data, Run(data, d, n).last).1)
  {
  }

  /** Prefixes a trace with pixels read earlier. */
  function After(px: seq<Color>, t: Trace): (r: Trace)
    ensures r.Trace? <==> t.Trace?
  {
    match t
    case Exhausted => Exhausted
    case Trace(qx, d) => Trace(px + qx, d)
  }

  /** Reading a + b pixels is reading a, then b more from where that left
      off. */
  lemma {:induction false} RunSplit(data: seq<byte>, d: Decoder, a: nat, b: nat)
    requires Run(data, d, a).Trace?
    ensures Run(data, d, a + b) == After(Run(data, d, a).pixels, Run(data, Run(data, d, a).last, b))
    decreases b
  {
    var first := Run(data, d, a);
    if b > 0 {
      RunSplit(data, d, a, b - 1);
      assert a + b - 1 == a + (b - 1);
      var right := Run(data, first.last, b - 1);
      if right.Trace? && CanNext(data, right.last) {
        assert first.pixels + right.pixels + [Next(data, right.last).0]
            == first.pixels + (right.pixels + [Next(data, right.last).0]);
      }
    } else {
      assert first.pixels + [] == first.pixels;
    }
  }

  /** RunSplit once the first a reads are known. */
  lemma RunThen(data: seq<byte>, d: Decoder, a: nat, px: seq<Color>, e: Decoder, b: nat)
    requires Run(data, d, a) == Trace(px, e) && Run(data, e, b).Trace?
    ensures Run(data, d, a + b) == Trace(px + Run(data, e, b).pixels, Run(data, e, b).last)
  {
    RunSplit(data, d, a, b);
  }

  /** Reads that start valid end valid. */
  lemma {:induction false} RunValid(data: seq<byte>, s: RleState, n: nat)
    requires RleValid(s) && Run(data, Rle(s), n).Trace?
    ensures Run(data, Rle(s), n).last.Rle? && RleValid(Run(data, Rle(s), n).last.rle)
    decreases n
  {
    if n > 0 {
      RunValid(data, s, n - 1);
      StepValid(data, Run(data, Rle(s), n - 1).last.rle);
    }
  }

  /** The raw stream keeps no state: n reads are the n pixels stored from
      its cursor on, they cost exactly 4n bytes, and they stay in the file
      exactly when those bytes are there. */
  lemma {:induction false} RawRun(data: seq<byte>, p: nat, n: nat)
    requires p <= |data|
    ensures Run(data, Raw(p), n) ==
      if p + 4 * n <= |data| then Trace(RawPixels(data, p, n), Raw(p + 4 * n)) else Exhausted
    decreases n
  {
    if n > 0 {
      var m := n - 1;
      RawRun(data, p, m);
      if p + 4 * n <= |data| {
        assert Run(data, Raw(p), m) == Trace(RawPixels(data, p, m), Raw(p + 4 * m));
        RunSnoc(data, Raw(p), m);
        RawPixelsSnoc(data, p, m);
      }
    }
  }

  // ---------------------------------------------------------------------
  // Run-length packets
  // ---------------------------------------------------------------------

  /** A TGA run-length packet of 32-bit pixels. */
  datatype Packet = RunPacket(n: nat, c: Color) | RawPacket(cs: seq<Color>)

  /** A packet holds 1..128 pixels. */
  predicate PacketOk(pk: Packet)
  {
    match pk
    case RunPacket(n, _) => 1 <= n <= 128
    case RawPacket(cs) => 1 <= |cs| <= 128
  }

  /** The pixels a packet stands for. */
  function Expand(pk: Packet): (cs: seq<Color>)
    ensures pk.RunPacket? ==> |cs| == pk.n && forall i :: 0 <= i < |cs| ==> cs[i] == pk.c
    ensures pk.RawPacket? ==> cs == pk.cs
  {
    match pk
    case RunPacket(n, c) => seq(n, _ => c)
    case RawPacket(cs) => cs
  }

  /** The bytes a packet takes on disk: the control byte and one colour for
      a run, the control byte and n colours for raw pixels. */
  function Size(pk: Packet): nat
  {
    match pk
    case RunPacket(_, _) => 5
    case RawPacket(cs) => 1 + 4 * |cs|
  }

  /** A packet on disk: the control byte (0x80 | (n - 1) for a run,
      n - 1 for raw pixels) followed by one colour or by n colours. */
  function EncodePacket(pk: Packet): (bytes: seq<byte>)
    requires PacketOk(pk)
    ensures |bytes| == Size(pk)
  {
    match pk
    case RunPacket(n, c) => [0x80 + (n - 1)] + EncodeBgra(c)
    case RawPacket(cs) => [|cs| - 1] + EncodeRaw(cs)
  }

  /** The file holds packet pk at offset p: its control byte, then its
      colour or colours. */
  predicate StoredAt(data: seq<byte>, p: nat, pk: Packet)
  {
    PacketOk(pk) && p + Size(pk) <= |data| &&
    match pk
    case RunPacket(n, c) => data[p] == 0x80 + (n - 1) && BgraAt(data, p + 1) == c
    case RawPacket(cs) => data[p] == |cs| - 1 && RawPixels(data, p + 1, |cs|) == cs
  }

  /** The bytes at p are the encoding of pk exactly when pk is stored there. */
  lemma StoredIsEncoded(data: seq<byte>, p: nat, pk: Packet)
    requires PacketOk(pk) && p + Size(pk) <= |data|
    ensures StoredAt(data, p, pk) <==> data[p..p + Size(pk)] == EncodePacket(pk)
  {
    match pk
    case RunPacket(n, c) => StoredRunIsEncoded(data, p, n, c);
    case RawPacket(cs) => StoredRawIsEncoded(data, p, cs);
  }

  lemma StoredRunIsEncoded(data: seq<byte>, p: nat, n: nat, c: Color)
    requires 1 <= n <= 128 && p + 5 <= |data|
    ensures StoredAt(data, p, RunPacket(n, c)) <==> data[p..p + 5] == EncodePacket(RunPacket(n, c))
  {
    var e := EncodePacket(RunPacket(n, c));
    if data[p..p + 5] == e {
      assert data[p] == e[0];
      assert data[p + 1..p + 5] == e[1..5];
      BgraFromSlice(data, p + 1, c);
    }
    if StoredAt(data, p, RunPacket(n, c)) {
      BgraRoundTrip(c, data, p + 1);
      assert data[p..p + 5] == [data[p]] + data[p + 1..p + 5];
    }
  }

  lemma StoredRawIsEncoded(data: seq<byte>, p: nat, cs: seq<Color>)
    requires 1 <= |cs| <= 128 && p + 1 + 4 * |cs| <= |data|
    ensures StoredAt(data, p, RawPacket(cs)) <==>
      data[p..p + 1 + 4 * |cs|] == EncodePacket(RawPacket(cs))
  {
    var e := EncodePacket(RawPacket(cs));
    var q := p + 1 + 4 * |cs|;
    if data[p..q] == e {
      assert data[p] == e[0];
      assert data[p + 1..q] == e[1..];
      EncodedAt(data, p + 1, cs);
      var r := RawPixels(data, p + 1, |cs|);
      assert forall k :: 0 <= k < |cs| ==> r[k] == cs[k];
    }
    if StoredAt(data, p, RawPacket(cs)) {
      RawEncodesRegion(data, p + 1, |cs|);
      assert data[p..q] == [data[p]] + data[p + 1..q];
    }
  }

  /** Where a packet leaves the stream: count_ is 0, the cursor is past the
      packet, the kind is the packet's and the colour its last pixel. */
  function EndState(p: nat, pk: Packet): (s: RleState)
    requires PacketOk(pk)
    ensures RleValid(s) && s.count == 0 && s.pos == p + Size(pk)
  {
    match pk
    case RunPacket(_, c) => RleState(p + 5, 0, Compressed, c)
    case RawPacket(cs) => RleState(p + 1 + 4 * |cs|, 0, Uncompressed, cs[|cs| - 1])
  }

  /** The first k reads of a run packet of n copies of c at offset p: the
      colour is read once with the control byte, then only repeated. */
  lemma {:induction false} RunPacketReads(data: seq<byte>, p: nat, n: nat, c: Color,
                                          mode: Mode, color: Color, k: nat)
    requires StoredAt(data, p, RunPacket(n, c)) && 1 <= k <= n
    ensures Run(data, Rle(RleState(p, 0, mode, color)), k)
         == Trace(seq(k, _ => c), Rle(RleState(p + 5, n - k, Compressed, c)))
    decreases k
  {
    var d := Rle(RleState(p, 0, mode, color));
    if k == 1 {
      assert Next(data, d) == (c, Rle(RleState(p + 5, n - 1, Compressed, c))) by {
        assert data[p] % 0x80 == n - 1;
      }
      RunSnoc(data, d, 0);
      assert seq(1, _ => c) == [] + [c];
    } else {
      var t := RleState(p + 5, n - (k - 1), Compressed, c);
      assert Run(data, d, k - 1) == Trace(seq(k - 1, _ => c), Rle(t)) by {
        RunPacketReads(data, p, n, c, mode, color, k - 1);
      }
      assert Next(data, Rle(t)) == (c, Rle(RleState(p + 5, n - k, Compressed, c)));
      RunSnoc(data, d, k - 1);
      assert seq(k, _ => c) == seq(k - 1, _ => c) + [c];
    }
  }

  /** The state of a raw packet of the pixels cs at offset p after k of
      its reads. */
  function RawPacketState(p: nat, cs: seq<Color>, k: nat): RleState
    requires 1 <= k <= |cs|
  {
    RleState(p + 1 + 4 * k, |cs| - k, Uncompressed, cs[k - 1])
  }

  /** Pixel k of a stored raw packet is the colour at p + 1 + 4k. */
  lemma RawPacketPixel(data: seq<byte>, p: nat, cs: seq<Color>, k: nat)
    requires StoredAt(data, p, RawPacket(cs)) && k < |cs|
    ensures BgraAt(data, p + 1 + 4 * k) == cs[k]
  {
    assert RawPixels(data, p + 1, |cs|)[k] == cs[k];
  }

  /** The first read of a raw packet takes the control byte and a colour. */
  lemma RawPacketFirst(data: seq<byte>, p: nat, cs: seq<Color>, mode: Mode, color: Color)
    requires StoredAt(data, p, RawPacket(cs))
    ensures Run(data, Rle(RleState(p, 0, mode, color)), 1) == Trace(cs[..1], Rle(RawPacketState(p, cs, 1)))
  {
    var d := Rle(RleState(p, 0, mode, color));
    assert Next(data, d) == (cs[0], Rle(RawPacketState(p, cs, 1))) by {
      assert data[p] % 0x80 == |cs| - 1;
      RawPacketPixel(data, p, cs, 0);
    }
    RunSnoc(data, d, 0);
    assert cs[..1] == [] + [cs[0]];
  }

  /** Every later read of a raw packet takes the next 4 bytes. */
  lemma RawPacketNext(data: seq<byte>, p: nat, cs: seq<Color>, mode: Mode, color: Color, k: nat)
    requires StoredAt(data, p, RawPacket(cs)) && 1 <= k < |cs|
    requires Run(data, Rle(RleState(p, 0, mode, color)), k) == Trace(cs[..k], Rle(RawPacketState(p, cs, k)))
    ensures Run(data, Rle(RleState(p, 0, mode, color)), k + 1)
         == Trace(cs[..k + 1], Rle(RawPacketState(p, cs, k + 1)))
  {
    var d := Rle(RleState(p, 0, mode, color));
    assert Next(data, Rle(RawPacketState(p, cs, k))) == (cs[k], Rle(RawPacketState(p, cs, k + 1))) by {
      RawPacketPixel(data, p, cs, k);
    }
    RunSnoc(data, d, k);
    assert cs[..k + 1] == cs[..k] + [cs[k]];
  }

  /** The first k reads of a raw packet of the pixels cs at offset p: every
      read takes the next 4 bytes. */
  lemma {:induction false} RawPacketReads(data: seq<byte>, p: nat, cs: seq<Color>,
                                          mode: Mode, color: Color, k: nat)
    requires StoredAt(data, p, RawPacket(cs)) && 1 <= k <= |cs|
    ensures Run(data, Rle(RleState(p, 0, mode, color)), k)
         == Trace(cs[..k], Rle(RawPacketState(p, cs, k)))
    decreases k
  {
    if k == 1 {
      RawPacketFirst(data, p, cs, mode, color);
    } else {
      RawPacketReads(data, p, cs, mode, color, k - 1);
      RawPacketNext(data, p, cs, mode, color, k - 1);
    }
  }

  /** A whole packet at offset p, whatever packet kind came before: its
      |Expand(pk)| reads return exactly Expand(pk), consume exactly its
      Size(pk) bytes (5 for a run, 1 + 4n for raw pixels), and leave count_
      at 0 for the next control byte. */
  lemma PacketDecodes(pk: Packet, data: seq<byte>, p: nat, mode: Mode, color: Color)
    requires StoredAt(data, p, pk)
    ensures Run(data, Rle(RleState(p, 0, mode, color)), |Expand(pk)|)
         == Trace(Expand(pk), Rle(EndState(p, pk)))
  {
    match pk
    case RunPacket(n, c) =>
      RunPacketReads(data, p, n, c, mode, color, n);
    case RawPacket(cs) =>
      RawPacketReads(data, p, cs, mode, color, |cs|);
      assert cs[..|cs|] == cs;
  }

  /** The pixels of a sequence of packets. */
  function ExpandAll(ps: seq<Packet>): seq<Color>
  {
    if ps == [] then [] else Expand(ps[0]) + ExpandAll(ps[1..])
  }

  /** The bytes a sequence of packets takes. */
  function SizeAll(ps: seq<Packet>): nat
  {
    if ps == [] then 0 else Size(ps[0]) + SizeAll(ps[1..])
  }

  /** The file holds the packets ps one after the other from offset p. */
  predicate AllStoredAt(data: seq<byte>, p: nat, ps: seq<Packet>)
    decreases |ps|
  {
    ps == [] || (StoredAt(data, p, ps[0]) && AllStoredAt(data, p + Size(ps[0]), ps[1..]))
  }

  /** An RLE stream standing before a sequence of packets decodes them in
      order to the concatenation of their pixels and stops right after the
      last one, with count_ back at 0. */
  lemma {:induction false} PacketsDecode(ps: seq<Packet>, data: seq<byte>, p: nat,
                                         mode: Mode, color: Color)
    requires AllStoredAt(data, p, ps)
    ensures var t := Run(data, Rle(RleState(p, 0, mode, color)), |ExpandAll(ps)|);
      t.Trace? && t.pixels == ExpandAll(ps) && t.last.Rle? &&
      t.last.rle.count == 0 && t.last.rle.pos == p + SizeAll(ps)
    decreases |ps|
  {
    var d := Rle(RleState(p, 0, mode, color));
    if ps == [] {
      assert ExpandAll(ps) == [];
    } else {
      var pk := ps[0];
      var a := |Expand(pk)|;
      var e := EndState(p, pk);
      assert Run(data, d, a) == Trace(Expand(pk), Rle(e)) by {
        PacketDecodes(pk, data, p, mode, color);
      }
      var rest := Run(data, Rle(e), |ExpandAll(ps[1..])|);
      assert rest.Trace? && rest.pixels == ExpandAll(ps[1..]) && rest.last.Rle? &&
        rest.last.rle.count == 0 && rest.last.rle.pos == e.pos + SizeAll(ps[1..]) by {
        PacketsDecode(ps[1..], data, e.pos, e.mode, e.color);
      }
      var b := |ExpandAll(ps[1..])|;
      var all := ExpandAll(ps);
      assert all == Expand(pk) + ExpandAll(ps[1..]);
      assert |all| == a + b;
      assert Run(data, d, a + b) == Trace(all, rest.last) by {
        RunThen(data, d, a, Expand(pk), Rle(e), b);
      }
    }
  }

  /** A run of five (10, 20, 30, 40) followed by a raw packet of three other
      colours decodes to those eight pixels, reading 5 + 13 bytes. */
  lemma RunThenRawExample(data: seq<byte>)
    requires data == [0x84, 30, 20, 10, 40, 0x02, 3, 2, 1, 4, 7, 6, 5, 8, 11, 10, 9, 12]
    ensures var c := Color(10, 20, 30, 40);
      var t := Run(data, Rle(RleInit(0)), 8);
      t.Trace? && t.last.Rle? && t.last.rle.pos == 18 &&
      t.pixels == [c, c, c, c, c, Color(1, 2, 3, 4), Color(5, 6, 7, 8), Color(9, 10, 11, 12)]
  {
    var c := Color(10, 20, 30, 40);
    var c1, c2, c3 := Color(1, 2, 3, 4), Color(5, 6, 7, 8), Color(9, 10, 11, 12);
    var run, raw := RunPacket(5, c), RawPacket([c1, c2, c3]);
    var ps := [run, raw];
    assert ps[1..] == [raw] && ps[1..][1..] == [];
    assert ExpandAll(ps) == [c, c, c, c, c, c1, c2, c3] by {
      assert ExpandAll([raw]) == [c1, c2, c3];
      assert Expand(run) == [c, c, c, c, c];
    }
    assert SizeAll(ps) == 18 by {
      assert SizeAll([raw]) == 13 + SizeAll([]);
    }
    assert AllStoredAt(data, 0, ps) by {
      assert StoredAt(data, 0, run);
      assert RawPixels(data, 6, 3) == [c1, c2, c3];
      assert StoredAt(data, 5, raw);
      assert AllStoredAt(data, 18, []);
    }
    PacketsDecode(ps, data, 0, Unknown, Blank);
  }

  // ---------------------------------------------------------------------
  // The stream objects
  // ---------------------------------------------------------------------

  /** `TGAStreamRAW`: a cursor into the file. */
  class RawStream {
    const data: seq<byte>
    var pos: nat

    constructor (data: seq<byte>, pos: nat)
      ensures this.data == data && this.pos == pos
    {
      this.data := data;
      this.pos := pos;
    }

    /** `read()`: the bytes b, g, r, a in turn, returned as Color(r, g, b, a). */
    method Read() returns (c: Color)
      requires pos + 4 <= |data|
      modifies this
      ensures (c, Raw(pos)) == Next(data, Raw(old(pos)))
    {
      var b := data[pos];
      pos := pos + 1;
      var g := data[pos];
      pos := pos + 1;
      var r := data[pos];
      pos := pos + 1;
      var a := data[pos];
      pos := pos + 1;
      c := Color(r, g, b, a);
    }
  }

  /** `TGAStreamRLE`: a cursor into the file and the packet state. */
  class RleStream {
    const data: seq<byte>
    var pos: nat
    var count: int
    var mode: Mode
    var color: Color

    function State(): RleState
      reads this
    {
      RleState(pos, count, mode, color)
    }

    constructor (data: seq<byte>, pos: nat)
      ensures this.data == data && State() == RleInit(pos)
    {
      this.data := data;
      this.pos := pos;
      count := 0;
      mode := Unknown;
      color := Blank;
    }

    /** `read()`: a new packet's control byte when count_ is 0, then a fresh
        colour inside a raw packet; count_ drops by one. */
    method Read() returns (c: Color)
      requires CanStep(data, State())
      modifies this
      ensures (c, State()) == Step(data, old(State()))
    {
      if count == 0 {
        var flagCount := data[pos];
        pos := pos + 1;
        if IsRunFlag(flagCount) {
          mode := Compressed;
          color := ReadColor();
        } else {
          mode := Uncompressed;
        }
        count := flagCount % 0x80 + 1;
      }
      if mode == Uncompressed {
        color := ReadColor();
      }
      count := count - 1;
      c := color;
    }

    /** The four bytes b, g, r, a at the cursor. */
    method ReadColor() returns (c: Color)
      requires pos + 4 <= |data|
      modifies this`pos
      ensures c == BgraAt(data, old(pos)) && pos == old(pos) + 4
    {
      var b := data[pos];
      var g := data[pos + 1];
      var r := data[pos + 2];
      var a := data[pos + 3];
      pos := pos + 4;
      c := Color(r, g, b, a);
    }
  }

  /** The stream `loadTGA` reads through (`std::unique_ptr<TGAStream>`). */
  datatype Stream = RawSource(raw: RawStream) | RleSource(rle: RleStream)

  function Footprint(s: Stream): set<object>
  {
    match s
    case RawSource(r) => {r}
    case RleSource(q) => {q}
  }

  function DataOf(s: Stream): seq<byte>
  {
    match s
    case RawSource(r) => r.data
    case RleSource(q) => q.data
  }

  function DecoderOf(s: Stream): Decoder
    reads Footprint(s)
  {
    match s
    case RawSource(r) => Raw(r.pos)
    case RleSource(q) => Rle(q.State())
  }

  /** `stream->read()`, dispatched to the stream picked. */
  method ReadPixel(s: Stream) returns (c: Color)
    requires CanNext(DataOf(s), DecoderOf(s))
    modifies Footprint(s)
    ensures (c, DecoderOf(s)) == Next(DataOf(s), old(DecoderOf(s)))
  {
    match s
    case RawSource(r) =>
      c := r.Read();
    case RleSource(q) =>
      c := q.Read();
  }
}
