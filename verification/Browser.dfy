/** The second, independent RTU codec, the one that runs in the browser, and its agreement with the core's. */
module Browser {
  import opened Words
  import opened BitPacking
  import opened Crc
  import opened StoreModel
  import opened Codec
  import opened Slave
  import opened EndToEnd
  import opened Rtu
  import opened RtuDevices

  /** A request body: numbers that may be out of range; an absent one counts as 0, an absent list as empty. */
  datatype Body = Body(slave: int, fc: int, address: int, quantity: int, value: int, values: seq<int>)

  // ---- Checksum on 32-bit numbers ----

  function Shift32(crc: bv32): bv32 {
    if crc & 1 != 0 then (crc >> 1) ^ 0xA001 else crc >> 1
  }

  /** A 16-bit word as a 32-bit number. */
  function Wide(x: bv16): bv32 {
    x as bv32
  }

  lemma HalfWidens(crc: bv16)
    ensures Wide(crc) & 1 != 0 <==> crc & 1 != 0
    ensures Wide(crc) >> 1 == Wide(crc >> 1)
  {
  }

  lemma MixWidens(x: bv16)
    ensures Wide(x) ^ 0xA001 == Wide(x ^ 0xA001)
  {
  }

  lemma ShiftWidens(crc: bv16)
    ensures Shift32(Wide(crc)) == Wide(Shift(crc))
  {
    hide Wide;
    HalfWidens(crc);
    if crc & 1 != 0 {
      assert Shift(crc) == (crc >> 1) ^ 0xA001;
      MixWidens(crc >> 1);
    } else {
      assert Shift(crc) == crc >> 1;
    }
  }

  lemma XorWidens(crc: bv16, b: bv16)
    ensures Wide(crc) ^ Wide(b) == Wide(Xor(crc, b))
  {
  }

  lemma MaskWidens(crc: bv16)
    ensures Wide(crc) & 0xFFFF == Wide(crc)
  {
  }

  /** The browser's loops work on 32-bit numbers and mask once at the end; they compute the 16-bit checksum. */
  method Crc32Bit(data: seq<byte>) returns (crc: bv32)
    ensures crc == Wide(Crc16(data))
  {
    crc := 0xFFFF;
    assert crc == Wide(SEED);
    hide Shift, Shift32, Xor, Image, Wide, Register;
    assert Register(SEED, data[..0]) == SEED by { RegisterEmpty(SEED); }
    for i := 0 to |data|
      invariant crc == Wide(Register(SEED, data[..i]))
    {
      ghost var before := Register(SEED, data[..i]);
      RegisterStep(SEED, data, i);
      XorWidens(before, Image(data[i]));
      crc := crc ^ Wide(Image(data[i]));
      ghost var mixed := Xor(before, Image(data[i]));
      for n := 0 to 8
        invariant crc == Wide(ShiftBy(mixed, n))
      {
        ShiftWidens(ShiftBy(mixed, n));
        crc := Shift32(crc);
      }
    }
    assert data[..|data|] == data;
    MaskWidens(Crc16(data));
    crc := crc & 0xFFFF;
  }

  // ---- Requests ----

  datatype Built = Built(frame: seq<byte>, quantity: nat, values: seq<int>)

  predicate IsWord(x: int) {
    0 <= x < 65536
  }

  predicate AllWords(values: seq<int>) {
    forall i | 0 <= i < |values| :: IsWord(values[i])
  }

  function Truthy(values: seq<int>): (r: seq<u16>)
    ensures |r| == |values|
    ensures forall i | 0 <= i < |r| :: r[i] == if values[i] != 0 then 1 else 0
  {
    seq(|values|, i requires 0 <= i < |values| => if values[i] != 0 then 1 else 0)
  }

  function AsWords(values: seq<int>): (r: seq<u16>)
    requires AllWords(values)
    ensures r == values
  {
    seq(|values|, i requires 0 <= i < |values| => assert IsWord(values[i]); values[i])
  }

  /** What buildFrame sends and keeps, or None where it throws. The values of an FC15 list are not checked to be words. */
  function BuildFrame(body: Body): Option<Built> {
    if !(1 <= body.slave <= 247) || !IsWord(body.address) then None
    else
      var slave: byte := body.slave;
      var address: u16 := body.address;
      if 1 <= body.fc <= 4 then
        if !(1 <= body.quantity <= MaxRead(body.fc)) then None
        else Some(Built(AppendCrc([slave, body.fc] + BigEndian(address) + BigEndian(body.quantity)), body.quantity, []))
      else if body.fc == 5 then
        var raw := if body.value == 0 then 0 else COIL_ON;
        Some(Built(AppendCrc([slave, 5] + BigEndian(address) + BigEndian(raw)), 1, [if body.value == 0 then 0 else 1]))
      else if body.fc == 6 then
        if !IsWord(body.value) then None
        else Some(Built(AppendCrc([slave, 6] + BigEndian(address) + BigEndian(body.value)), 1, [body.value]))
      else if body.fc == 15 then
        if !(1 <= |body.values| <= 1968) then None
        else
          Some(Built(AppendCrc([slave, 15] + BigEndian(address) + BigEndian(|body.values|)
                               + [ByteCount(|body.values|)] + Packed(Truthy(body.values))),
                     |body.values|, body.values))
      else if body.fc == 16 then
        if !(1 <= |body.values| <= 123) || !AllWords(body.values) then None
        else
          Some(Built(AppendCrc([slave, 16] + BigEndian(address) + BigEndian(|body.values|)
                               + [2 * |body.values|] + Registers(AsWords(body.values))),
                     |body.values|, body.values))
      else
        None
  }

  // ---- The encoder, step by step ----

  /** u16: (value >> 8) & 0xff and value & 0xff, for a number that is not negative. */
  function U16(value: nat): (r: seq<byte>)
    ensures |r| == 2
  {
    [value / 256 % 256, value % 256]
  }

  lemma U16IsBigEndian(value: u16)
    ensures U16(value) == BigEndian(value)
  {
    hide Hi, Lo;
    HalvesAreQuotients(value);
  }

  /** crc & 0xff and (crc >> 8) & 0xff. */
  function Low32(crc: bv32): byte {
    (crc & 0xFF) as byte
  }

  function High32(crc: bv32): byte {
    ((crc >> 8) & 0xFF) as byte
  }

  lemma LowWidens(crc: bv16)
    ensures Low32(Wide(crc)) == CrcLow(crc)
  {
    assert Wide(crc) & 0xFF == Wide(crc & 0xFF);
  }

  lemma HighWidens(crc: bv16)
    ensures High32(Wide(crc)) == CrcHigh(crc)
  {
    assert (Wide(crc) >> 8) & 0xFF == Wide(crc >> 8);
  }

  /** withCrc: the 32-bit checksum, low byte first. */
  method WithCrc(bytes: seq<byte>) returns (frame: seq<byte>)
    ensures frame == AppendCrc(bytes)
  {
    hide Wide, Crc16, CrcLow, CrcHigh, Low32, High32;
    var crc := Crc32Bit(bytes);
    LowWidens(Crc16(bytes));
    HighWidens(Crc16(bytes));
    return bytes + [Low32(crc), High32(crc)];
  }

  /** packed, filled by values.forEach: bit i % 8 of byte i / 8 is set for every value that is not 0. */
  method PackList(values: seq<int>) returns (packed: seq<byte>)
    ensures packed == Packed(Truthy(values))
  {
    hide Bit, PackedByte, WithBit, Truthy, Flag;
    var count := (|values| + 7) / 8;
    var buffer := new byte[count](_ => 0);
    forall k | 0 <= k < 8
      ensures Bit(0, k) == 0
    {
      ZeroBit(k);
    }
    for i := 0 to |values|
      invariant forall m, k | 0 <= m < count && 0 <= k < 8 ::
                  Bit(buffer[m], k) == if 8 * m + k < i then Flag(Truthy(values), 8 * m + k) else 0
    {
      TruthyFlag(values, i);
      if values[i] != 0 {
        buffer[i / 8] := WithBit(buffer[i / 8], i % 8);
      }
    }
    forall m | 0 <= m < count
      ensures buffer[m] == Packed(Truthy(values))[m]
    {
      forall k | 0 <= k < 8
        ensures Bit(buffer[m], k) == Bit(Packed(Truthy(values))[m], k)
      {
        PackedByteBit(Truthy(values), m, k);
        if 8 * m + k >= |values| {
          PastTheEnd(values, 8 * m + k);
        }
      }
      BitsDetermine(buffer[m], Packed(Truthy(values))[m]);
    }
    return buffer[..];
  }

  lemma TruthyFlag(values: seq<int>, i: nat)
    requires i < |values|
    ensures Flag(Truthy(values), i) == if values[i] != 0 then 1 else 0
  {
  }

  lemma PastTheEnd(values: seq<int>, i: nat)
    requires i >= |values|
    ensures Flag(Truthy(values), i) == 0
  {
  }

  /** The payload, by values.flatMap of u16, or None at the first value that is not a word. */
  method FlattenList(values: seq<int>) returns (payload: Option<seq<byte>>)
    ensures payload == if AllWords(values) then Some(Registers(AsWords(values))) else None
  {
    hide AsWords, U16;
    var bytes: seq<byte> := [];
    for i := 0 to |values|
      invariant AllWords(values[..i])
      invariant bytes == Registers(AsWords(values[..i]))
    {
      if values[i] < 0 || values[i] > 65535 {
        assert !IsWord(values[i]);
        return None;
      }
      U16IsBigEndian(values[i]);
      RegistersGrow(AsWords(values[..i]), values[i]);
      assert AsWords(values[..i + 1]) == AsWords(values[..i]) + [values[i] as u16];
      bytes := bytes + U16(values[i]);
    }
    assert values[..|values|] == values;
    return Some(bytes);
  }

  lemma RegistersGrow(values: seq<u16>, w: u16)
    ensures Registers(values + [w]) == Registers(values) + BigEndian(w)
  {
    hide Hi, Lo;
  }

  /** buildFrame: its checks, its conversions and its loops come to BuildFrame. */
  method EncodeRequest(body: Body) returns (built: Option<Built>)
    ensures built == BuildFrame(body)
  {
    hide BigEndian, U16, AppendCrc, Packed, Registers, Truthy, AsWords, AllWords;
    if body.slave < 1 || body.slave > 247 {
      return None;
    }
    if body.address < 0 || body.address > 65535 {
      return None;
    }
    var slave: byte, fc, at := body.slave, body.fc, U16(body.address);
    U16IsBigEndian(body.address);
    var frame: seq<byte>;
    if fc == 1 || fc == 2 || fc == 3 || fc == 4 {
      var max := if fc <= 2 then 2000 else 125;
      if body.quantity < 1 || body.quantity > max {
        return None;
      }
      U16IsBigEndian(body.quantity);
      frame := WithCrc([slave, fc as byte] + at + U16(body.quantity));
      return Some(Built(frame, body.quantity, []));
    }
    if fc == 5 {
      var raw: u16 := if body.value == 0 then 0 else 0xFF00;
      U16IsBigEndian(raw);
      frame := WithCrc([slave, 5] + at + U16(raw));
      return Some(Built(frame, 1, [if raw != 0 then 1 else 0]));
    }
    if fc == 6 {
      if body.value < 0 || body.value > 65535 {
        return None;
      }
      U16IsBigEndian(body.value);
      frame := WithCrc([slave, 6] + at + U16(body.value));
      return Some(Built(frame, 1, [body.value]));
    }
    var n := |body.values|;
    if fc == 15 {
      if n == 0 || n > 1968 {
        return None;
      }
      var packed := PackList(body.values);
      U16IsBigEndian(n);
      frame := WithCrc([slave, 15] + at + U16(n) + [|packed|] + packed);
      return Some(Built(frame, n, body.values));
    }
    if fc == 16 {
      if n == 0 || n > 123 {
        return None;
      }
      var payload := FlattenList(body.values);
      if payload.None? {
        return None;
      }
      U16IsBigEndian(n);
      frame := WithCrc([slave, 16] + at + U16(n) + [|payload.value|] + payload.value);
      return Some(Built(frame, n, body.values));
    }
    return None;
  }

  function BodyOf(req: Request): Body {
    Body(req.slave, req.fc, req.address, req.quantity, req.value, req.values)
  }

  /** The two codecs put the same frame on the wire for every request the browser lets through, the core's valid ones among
      them, and remember the same quantity; for writes the browser keeps the values sent, of FC05 whether it is on. */
  lemma SameFrames(req: Request)
    ensures Valid(req) ==> BuildFrame(BodyOf(req)).Some?
    ensures BuildFrame(BodyOf(req)).Some? ==>
              && Supported(req.fc)
              && var built := BuildFrame(BodyOf(req)).value;
                 && built.frame == RtuFrame(req.slave, Pdu(req)) && built.quantity == Expected(req)
                 && (req.fc == 5 ==> built.values == [if req.value != 0 then 1 else 0])
                 && (req.fc > 5 ==> built.values == Written(req))
    ensures Valid(req) && req.fc > 4 ==> BuildFrame(BodyOf(req)).value.values == Written(req)
  {
    hide AppendCrc, Packed, BigEndian, Registers, AsWords, Truthy;
    EveryWord(req);
    if BuildFrame(BodyOf(req)).Some? {
      if req.fc <= 6 {
        SameWordBody(req);
      } else {
        SameListBody(req);
      }
    }
  }

  lemma SameWordBody(req: Request)
    requires 1 <= req.fc <= 6
    ensures var word := if req.fc <= 4 then req.quantity else if req.fc == 6 then req.value
                        else if req.value == 0 then 0 else COIL_ON;
            [req.slave, req.fc] + BigEndian(req.address) + BigEndian(word) == [req.slave] + Pdu(req)
  {
    hide Hi, Lo;
  }

  lemma SameListBody(req: Request)
    requires req.fc == 15 || req.fc == 16
    requires 1 <= |req.values| <= if req.fc == 15 then 1968 else 123
    ensures req.fc == 15 ==>
              [req.slave, 15] + BigEndian(req.address) + BigEndian(|req.values|) + [ByteCount(|req.values|)]
                + Packed(Truthy(req.values)) == [req.slave] + Pdu(req)
    ensures AllWords(req.values)
    ensures req.fc == 16 ==>
              [req.slave, 16] + BigEndian(req.address) + BigEndian(|req.values|) + [2 * |req.values|]
                + Registers(AsWords(req.values)) == [req.slave] + Pdu(req)
  {
    hide Packed, BigEndian, Registers;
    EveryWord(req);
    TruthyPacks(req.values);
  }

  lemma TruthyPacks(values: seq<u16>)
    ensures Packed(Truthy(values)) == Packed(values)
  {
    hide FromBits;
    forall i: nat
      ensures Flag(Truthy(values), i) == Flag(values, i)
    {
    }
  }

  lemma EveryWord(req: Request)
    ensures AllWords(req.values)
  {
    forall i | 0 <= i < |req.values|
      ensures IsWord(req.values[i])
    {
      var w: u16 := req.values[i];
    }
  }

  /** The browser lets through exactly what the core does and three kinds of request more: ranges that run past
      65535, FC05 values other than 0 and 1, and FC15 values other than 0 and 1. */
  lemma BrowserAdmits(req: Request)
    ensures Valid(req) <==>
            && BuildFrame(BodyOf(req)).Some?
            && req.address + Span(req) <= 65536
            && (req.fc == 5 ==> req.value <= 1)
            && (req.fc == 15 ==> AllBits(req.values))
  {
    hide AppendCrc, Packed, Registers, BigEndian;
    EveryWord(req);
  }

  // ---- Replies ----

  function ExpectedLength(bytes: seq<byte>): Option<nat> {
    if |bytes| < 2 then None
    else if bytes[1] >= 0x80 then Some(5)
    else if 1 <= bytes[1] <= 4 then (if |bytes| >= 3 then Some(5 + bytes[2] as int) else None)
    else if bytes[1] in {5, 6, 15, 16} then Some(8)
    else None
  }

  function Complete(bytes: seq<byte>): Option<seq<byte>> {
    match ExpectedLength(bytes)
    case None => None
    case Some(n) => if |bytes| >= n then Some(bytes[..n]) else None
  }

  /** Once known, the expected length does not change as more bytes arrive; nor does a complete reply. */
  lemma LengthSettles(bytes: seq<byte>, more: seq<byte>)
    ensures ExpectedLength(bytes).Some? ==> ExpectedLength(bytes + more) == ExpectedLength(bytes)
    ensures Complete(bytes).Some? ==> Complete(bytes + more) == Complete(bytes)
  {
    if Complete(bytes).Some? {
      var n := ExpectedLength(bytes).value;
      assert (bytes + more)[..n] == bytes[..n];
    }
  }

  /** The accumulation loop over the chunks that arrive before the deadline. It depends only on the bytes, not on
      how they were dealt into chunks. */
  method Accumulate(chunks: seq<seq<byte>>) returns (reply: Option<seq<byte>>)
    ensures reply == Complete(Joined(chunks))
  {
    hide ExpectedLength;
    var bytes: seq<byte> := [];
    var i, done := 0, false;
    assert bytes + Joined(chunks) == Joined(chunks);
    assert chunks[0..] == chunks;
    while i < |chunks| && !done
      invariant i <= |chunks|
      invariant bytes + Joined(chunks[i..]) == Joined(chunks)
      invariant done ==> Complete(bytes).Some?
      decreases |chunks| - i
    {
      ghost var before := bytes;
      bytes := bytes + chunks[i];
      assert chunks[i..][0] == chunks[i] && chunks[i..][1..] == chunks[i + 1..];
      assert before + Joined(chunks[i..]) == bytes + Joined(chunks[i + 1..]);
      i := i + 1;
      var length := ExpectedLength(bytes);
      done := length.Some? && |bytes| >= length.value;
    }
    if !done {
      assert chunks[i..] == [];
      assert bytes == Joined(chunks);
    }
    LengthSettles(bytes, Joined(chunks[i..]));
    var length := ExpectedLength(bytes);
    if length.None? || |bytes| < length.value {
      return None;
    }
    return Some(bytes[..length.value]);
  }

  /** The browser cuts a reply where the core does; only the core looks at the slave first. */
  lemma SameCut(s: seq<byte>, slave: byte)
    ensures SplitReply(s, slave).Whole? <==> Complete(s).Some? && s[0] == slave
    ensures SplitReply(s, slave).Whole? ==> Complete(s) == Some(s[..SplitReply(s, slave).size])
  {
  }

  /** An element past the end reads as undefined, which the bit operators take for 0. */
  function At(s: seq<byte>, i: nat): byte {
    if i < |s| then s[i] else 0
  }

  function ParseResponse(req: Request, response: seq<byte>, quantity: nat, written: seq<u16>): Option<seq<u16>> {
    if |response| < 5 then None
    else if LittleEndian(response[|response| - 2], response[|response| - 1]) != Crc16(response[..|response| - 2]) then None
    else if response[0] != req.slave || response[1] >= 0x80 || response[1] != req.fc then None
    else if req.fc == 1 || req.fc == 2 then
      Some(seq(quantity, i requires 0 <= i < quantity => Bit(At(response, 3 + i / 8), i % 8)))
    else if req.fc == 3 || req.fc == 4 then
      if response[2] as int != 2 * quantity then None
      else Some(seq(quantity, i requires 0 <= i < quantity => Word(At(response, 3 + 2 * i), At(response, 4 + 2 * i))))
    else if req.fc == 5 then
      Some([if |response| > 5 && response[4] == 0xFF && response[5] == 0 then 1 else 0])
    else if req.fc == 6 then
      Some([Word(At(response, 4), At(response, 5))])
    else
      Some(written)
  }

  /** What the browser makes of the bytes that answer a valid request. */
  function HearBrowser(req: Request, answer: seq<byte>): Option<seq<u16>>
    requires Valid(req)
  {
    match Complete(answer)
    case None => None
    case Some(response) => ParseResponse(req, response, Expected(req), if req.fc > 4 then Written(req) else [])
  }

  /** Whatever bytes come back, if the core decodes them so does the browser, to the same values. */
  lemma BrowserFollowsCore(req: Request, answer: seq<byte>)
    requires Valid(req)
    requires HearRtu(req, answer).Heard? && HearRtu(req, answer).parsed.Decoded?
    ensures HearBrowser(req, answer) == Some(HearRtu(req, answer).parsed.values)
  {
    hide Crc16, LittleEndian, SplitReply, Complete, Bit, Word;
    SameCut(answer, req.slave);
    var size := SplitReply(answer, req.slave).size;
    var response, pdu := answer[..size], answer[1..size - 2];
    assert response[..|response| - 2] == response[..size - 2];
    assert forall i | 0 <= i < |pdu| :: pdu[i] == response[1 + i];
    PduOfReply(req, response, pdu);
  }

  lemma PduOfReply(req: Request, response: seq<byte>, pdu: seq<byte>)
    requires Valid(req) && |response| == |pdu| + 3 && VerifyCrc(response) && response[0] == req.slave
    requires forall i | 0 <= i < |pdu| :: pdu[i] == response[1 + i]
    requires |response| >= 5 && ParsePdu(req, Expected(req), pdu).Decoded?
    ensures ParseResponse(req, response, Expected(req), if req.fc > 4 then Written(req) else []) ==
            Some(ParsePdu(req, Expected(req), pdu).values)
  {
    hide Crc16, LittleEndian, Bit;
    var q := Expected(req);
    var got := ParseResponse(req, response, q, if req.fc > 4 then Written(req) else []);
    if req.fc <= 2 {
      assert got.value == Unpacked(pdu[2..], q);
    } else if req.fc <= 4 {
      assert got.value == RegistersAt(pdu[2..], q);
    }
  }

  /** On any bytes that come back, the browser decodes exactly what the core decodes and three kinds of reply more: a bit
      reply with too few bytes, which stops the core, and an echo of a wrong address or quantity or of a wrong FC05 value,
      which the core refuses. */
  lemma BrowserDecodesExactly(req: Request, answer: seq<byte>)
    requires Valid(req)
    ensures HearBrowser(req, answer).Some? <==>
            var core := HearRtu(req, answer);
            core.Heard? && (core.parsed.Decoded? || core.parsed.Panic? || core.parsed == Refused(EchoMismatch)
                            || core.parsed == Refused(BadEchoValue))
  {
    hide Crc16, LittleEndian, SplitReply, Complete, Bit, Word;
    SameCut(answer, req.slave);
    if Complete(answer).Some? {
      var response := Complete(answer).value;
      CutLength(answer);
      if response[0] == req.slave {
        var size := SplitReply(answer, req.slave).size;
        var pdu := answer[1..size - 2];
        assert response[..|response| - 2] == response[..size - 2];
        assert forall i | 0 <= i < |pdu| :: pdu[i] == response[1 + i];
        DecodesExactly(req, response, pdu);
      }
    }
  }

  /** What it decodes: only whole frames of its slave with the function code it sent; the bits or registers that are there,
      for bits past the end of a short reply those of its checksum and then 0; a coil as on exactly for FF 00; the word an FC06
      reply carries; and for multi-writes what was sent, whatever was echoed. */
  lemma BrowserDecodesTo(req: Request, answer: seq<byte>)
    requires Valid(req) && HearBrowser(req, answer).Some?
    ensures Complete(answer).Some?
    ensures var r, v := Complete(answer).value, HearBrowser(req, answer).value;
            && r <= answer && VerifyCrc(r) && r[0] == req.slave && r[1] == req.fc
            && (req.fc in {1, 2} ==>
                && |v| == req.quantity
                && forall i | 0 <= i < |v| :: v[i] == if 3 + i / 8 < |r| then Bit(r[3 + i / 8], i % 8) else 0)
            && (req.fc in {3, 4} ==>
                && |v| == req.quantity && |r| == 5 + 2 * |v|
                && forall i | 0 <= i < |v| :: v[i] == r[3 + 2 * i] as int * 256 + r[4 + 2 * i] as int)
            && (req.fc in {5, 6} ==> |r| == 8)
            && (req.fc == 5 ==> v == [if r[4..6] == [0xFF, 0x00] then 1 else 0])
            && (req.fc == 6 ==> v == [r[4] as int * 256 + r[5] as int])
            && (req.fc in {15, 16} ==> v == req.values)
  {
    hide Crc16, LittleEndian, Complete, Bit;
    CutLength(answer);
    var r := Complete(answer).value;
    assert r <= answer by { CompleteIsFront(answer); }
    ZeroBits();
    if req.fc == 5 {
      assert r[4..6] == [0xFF, 0x00] <==> r[4] == 0xFF && r[5] == 0;
    }
  }

  lemma CompleteIsFront(answer: seq<byte>)
    requires Complete(answer).Some?
    ensures Complete(answer).value <= answer
  {
  }

  lemma ZeroBits()
    ensures forall k | 0 <= k < 8 :: Bit(0, k) == 0
  {
    forall k | 0 <= k < 8
      ensures Bit(0, k) == 0
    {
      ZeroBit(k);
    }
  }

  lemma CutLength(answer: seq<byte>)
    requires Complete(answer).Some?
    ensures var r := Complete(answer).value;
            && 5 <= |r| && r[0] == answer[0]
            && (r[1] >= 0x80 ==> |r| == 5)
            && (1 <= r[1] <= 4 ==> |r| == 5 + r[2] as int)
            && (r[1] >= 5 && r[1] < 0x80 ==> |r| == 8)
  {
  }

  lemma DecodesExactly(req: Request, response: seq<byte>, pdu: seq<byte>)
    requires Valid(req) && |response| == |pdu| + 3 && response[0] == req.slave && |response| >= 5
    requires forall i | 0 <= i < |pdu| :: pdu[i] == response[1 + i]
    requires 1 <= response[1] <= 4 ==> |response| == 5 + response[2] as int
    requires 5 <= response[1] < 0x80 ==> |response| == 8
    ensures var core := ParsePdu(req, Expected(req), pdu);
            ParseResponse(req, response, Expected(req), if req.fc > 4 then Written(req) else []).Some? <==>
            VerifyCrc(response) && (core.Decoded? || core.Panic? || core == Refused(EchoMismatch) || core == Refused(BadEchoValue))
  {
    hide Crc16, LittleEndian, Bit, Word;
  }

  /** On the reply of any slave to any valid request the two masters agree completely: both decode it, to the same
      values, or both report an error. */
  lemma MastersAgree(st: State, req: Request)
    requires Valid(req)
    ensures var back := RtuFrame(req.slave, Serve(st, req.slave, Pdu(req)).pdu);
            && HearRtu(req, back) == Heard(Direct(st, req).answer)
            && HearBrowser(req, back) == (match Direct(st, req).answer case Decoded(v, _) => Some(v) case _ => None)
  {
    hide Serve, Pdu, Crc16, SplitReply, VerifyCrc, Read, Write;
    RoundTrip(st, req);
    var r := Serve(st, req.slave, Pdu(req));
    var back := RtuFrame(req.slave, r.pdu);
    ReplyFrames(st, req.slave, Pdu(req), []);
    assert back + [] == back;
    if Direct(st, req).answer.Decoded? {
      BrowserFollowsCore(req, back);
    } else {
      FrameParts(req.slave, r.pdu);
      ExceptionHeard(req, back, r.pdu);
    }
  }

  lemma ExceptionHeard(req: Request, back: seq<byte>, pdu: seq<byte>)
    requires Valid(req) && |pdu| >= 2 && |back| == |pdu| + 3
    requires forall i | 0 <= i < |pdu| :: back[1 + i] == pdu[i]
    requires ParsePdu(req, Expected(req), pdu) == Refused(Exception(pdu[1]))
    ensures HearBrowser(req, back) == None
  {
    hide Crc16, LittleEndian;
  }
}
