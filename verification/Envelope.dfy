/** The attachment envelope: what a radio head and its brain say to each other, encoded,
    carried over the frame channel, and decoded. */
module Envelope {
  import opened Bytes
  import opened FrameChannel

  type i8 = x: int | -0x80 <= x < 0x80
  type i16 = x: int | -0x8000 <= x < 0x8000
  type i32 = x: int | -0x8000_0000 <= x < 0x8000_0000

  const WIRE_MAX := 255
  const RX_HDR := 10
  const TX_HDR := 5
  const TX_RELAY_HDR := 22
  const TX_RESULT_LEN := 9
  const TX_RESULT_LAG_LEN := 11
  const STATUS_LEN := 27
  const STATUS_POS_LEN := 39
  const TX_CANCEL_LEN := 9
  const SET_POLICY_LEN := 3
  const SET_PRESET_LEN := 2

  datatype Message =
    | RxFrame(preset: byte, rssi: i16, snr: i8, rxMs: u32, flags: byte, wire: seq<byte>)
    | TxFrame(preset: byte, flags: byte, txSeq: u16, relaySrc: u32, relayId: u32, relayRxMs: u32,
              notBeforeMs: u32, dupe: byte, wire: seq<byte>)
    | TxResult(txSeq: u16, rc: i8, defers: byte, txMs: u32, hasLag: bool, lagMs: u16)
    | Status(preset: byte, flags: byte, hwid: u32, brain: u32, rxFrames: u32, txFrames: u32,
             uptimeS: u32, rxDropped: u32, lat: i32, lon: i32, alt: i32)
    | SetPreset(preset: byte)
    | TxCancel(src: u32, id: u32)
    | SetPolicy(flags: byte, txPower: i8)

  datatype Error = Inval | MsgSize | BadMsg
  datatype Result<+T> = Ok(value: T) | Err(error: Error)

  predicate IsRelay(flags: byte) { flags / 4 % 2 == 1 }
  predicate HasPos(flags: byte) { flags / 4 % 2 == 1 }

  // ----- integers ------------------------------------------------------------------------------

  function Put16(v: u16): (bs: seq<byte>)
    ensures |bs| == 2
  {
    [v % 0x100, v / 0x100]
  }

  function Put32(v: u32): (bs: seq<byte>)
    ensures |bs| == 4
  {
    [v % 0x100, v / 0x100 % 0x100, v / 0x1_0000 % 0x100, v / 0x100_0000]
  }

  function Get16(bs: seq<byte>, i: nat): (v: u16)
    requires i + 2 <= |bs|
  {
    bs[i] as int + bs[i + 1] as int * 0x100
  }

  function Get32(bs: seq<byte>, i: nat): (v: u32)
    requires i + 4 <= |bs|
  {
    bs[i] as int + bs[i + 1] as int * 0x100 + bs[i + 2] as int * 0x1_0000 + bs[i + 3] as int * 0x100_0000
  }

  function AsU8(v: i8): byte { v % 0x100 }
  function AsU16(v: i16): u16 { v % 0x1_0000 }
  function AsU32(v: i32): u32 { v % 0x1_0000_0000 }
  function AsI8(v: byte): i8 { if v < 0x80 then v else v - 0x100 }
  function AsI16(v: u16): i16 { if v < 0x8000 then v else v - 0x1_0000 }
  function AsI32(v: u32): i32 { if v < 0x8000_0000 then v else v - 0x1_0000_0000 }

  lemma SignedRoundTrips(a: i8, b: i16, c: i32)
    ensures AsI8(AsU8(a)) == a && AsI16(AsU16(b)) == b && AsI32(AsU32(c)) == c
  {
  }

  lemma Put16Get(a: seq<byte>, v: u16, b: seq<byte>)
    ensures Get16(a + Put16(v) + b, |a|) == v
  {
  }

  lemma Put32Get(a: seq<byte>, v: u32, b: seq<byte>)
    ensures Get32(a + Put32(v) + b, |a|) == v
  {
    var bs := a + Put32(v) + b;
    assert bs[|a|] == Put32(v)[0] && bs[|a| + 1] == Put32(v)[1] && bs[|a| + 2] == Put32(v)[2] && bs[|a| + 3] == Put32(v)[3];
    FourBytes(v);
  }

  lemma FourBytes(v: u32)
    ensures v % 0x100 + v / 0x100 % 0x100 * 0x100 + v / 0x1_0000 % 0x100 * 0x1_0000 + v / 0x100_0000 * 0x100_0000 == v
  {
    assert v == v % 0x100 + v / 0x100 * 0x100;
    assert v / 0x100 == v / 0x100 % 0x100 + v / 0x1_0000 * 0x100;
    assert v / 0x1_0000 == v / 0x1_0000 % 0x100 + v / 0x100_0000 * 0x100;
  }

  /** Consecutive 32-bit fields. */
  function Fields(vs: seq<u32>): (bs: seq<byte>)
    ensures |bs| == 4 * |vs|
  {
    if |vs| == 0 then [] else Fields(vs[..|vs| - 1]) + Put32(vs[|vs| - 1])
  }

  lemma {:induction false} FieldAt(a: seq<byte>, vs: seq<u32>, b: seq<byte>, i: nat)
    requires i < |vs|
    ensures Get32(a + Fields(vs) + b, |a| + 4 * i) == vs[i]
  {
    hide Put32, Get32;
    var init, last := vs[..|vs| - 1], vs[|vs| - 1];
    if i == |vs| - 1 {
      Put32Get(a + Fields(init), last, b);
      assert a + Fields(vs) + b == a + Fields(init) + Put32(last) + b;
    } else {
      FieldAt(a, init, Put32(last) + b, i);
      assert a + Fields(vs) + b == a + Fields(init) + (Put32(last) + b);
    }
  }

  // ----- encoding --------------------------------------------------------------------------------

  predicate WireOk(wire: seq<byte>) { 0 < |wire| <= WIRE_MAX }

  function RelayFields(m: Message): seq<u32>
    requires m.TxFrame?
  {
    [m.relaySrc, m.relayId, m.relayRxMs, m.notBeforeMs]
  }

  function StatusFields(m: Message): (vs: seq<u32>)
    requires m.Status?
    ensures |vs| == if HasPos(m.flags) then 9 else 6
  {
    [m.hwid, m.brain, m.rxFrames, m.txFrames, m.uptimeS, m.rxDropped]
    + if HasPos(m.flags) then [AsU32(m.lat), AsU32(m.lon), AsU32(m.alt)] else []
  }

  /** The bytes of a message, given whether a result's lag fits the buffer. */
  function Layout(m: Message, lagFits: bool): (bs: seq<byte>) {
    match m
    case RxFrame(preset, rssi, snr, rxMs, flags, wire) =>
      [1, preset] + Put16(AsU16(rssi)) + [AsU8(snr)] + Fields([rxMs]) + [flags] + wire
    case TxFrame(preset, flags, txSeq, _, _, _, _, dupe, wire) =>
      [2, preset, flags] + Put16(txSeq) + (if IsRelay(flags) then Fields(RelayFields(m)) + [dupe] else []) + wire
    case TxResult(txSeq, rc, defers, txMs, hasLag, lagMs) =>
      [3] + Put16(txSeq) + [AsU8(rc), defers] + Fields([txMs]) + if hasLag && lagFits then Put16(lagMs) else []
    case Status(preset, flags, _, _, _, _, _, _, _, _, _) => [4, preset, flags] + Fields(StatusFields(m))
    case SetPreset(preset) => [5, preset]
    case TxCancel(src, id) => [7] + Fields([src, id])
    case SetPolicy(flags, txPower) => [8, flags, AsU8(txPower)]
  }

  function Encode(m: Message, outSize: nat): (r: Result<seq<byte>>) {
    if (m.RxFrame? || m.TxFrame?) && |m.wire| == 0 then Err(Inval)
    else if (m.RxFrame? || m.TxFrame?) && |m.wire| > WIRE_MAX then Err(MsgSize)
    else
      var bs := Layout(m, outSize >= TX_RESULT_LAG_LEN);
      if outSize < |bs| then Err(MsgSize) else Ok(bs)
  }

  // ----- decoding --------------------------------------------------------------------------------

  function Decode(env: seq<byte>): (r: Result<Message>) {
    if |env| < 1 then Err(Inval)
    else if env[0] == 1 then DecodeRx(env)
    else if env[0] == 2 then DecodeTx(env)
    else if env[0] == 3 then DecodeResult(env)
    else if env[0] == 4 then DecodeStatus(env)
    else if env[0] == 5 then (if |env| < SET_PRESET_LEN then Err(BadMsg) else Ok(SetPreset(env[1])))
    else if env[0] == 7 then
      if |env| < TX_CANCEL_LEN then Err(BadMsg) else Ok(TxCancel(Get32(env, 1), Get32(env, 5)))
    else if env[0] == 8 then
      if |env| < SET_POLICY_LEN then Err(BadMsg) else Ok(SetPolicy(env[1], AsI8(env[2])))
    else Err(BadMsg)
  }

  function DecodeRx(env: seq<byte>): (r: Result<Message>) {
    if |env| <= RX_HDR || |env| > RX_HDR + WIRE_MAX then Err(BadMsg)
    else Ok(RxFrame(env[1], AsI16(Get16(env, 2)), AsI8(env[4]), Get32(env, 5), env[9], env[RX_HDR..]))
  }

  function DecodeTx(env: seq<byte>): (r: Result<Message>) {
    var relay := |env| > 2 && IsRelay(env[2]);
    var hdr := if relay then TX_RELAY_HDR else TX_HDR;
    if |env| <= hdr || |env| > hdr + WIRE_MAX then Err(BadMsg)
    else if relay then
      Ok(TxFrame(env[1], env[2], Get16(env, 3), Get32(env, 5), Get32(env, 9), Get32(env, 13), Get32(env, 17),
                 env[21], env[hdr..]))
    else Ok(TxFrame(env[1], env[2], Get16(env, 3), 0, 0, 0, 0, 0, env[hdr..]))
  }

  function DecodeResult(env: seq<byte>): (r: Result<Message>) {
    if |env| < TX_RESULT_LEN then Err(BadMsg)
    else
      var lag := |env| >= TX_RESULT_LAG_LEN;
      Ok(TxResult(Get16(env, 1), AsI8(env[3]), env[4], Get32(env, 5), lag, if lag then Get16(env, 9) else 0))
  }

  function DecodeStatus(env: seq<byte>): (r: Result<Message>) {
    if |env| < STATUS_LEN || (HasPos(env[2]) && |env| < STATUS_POS_LEN) then Err(BadMsg)
    else
      var pos := HasPos(env[2]);
      Ok(Status(env[1], env[2], Get32(env, 3), Get32(env, 7), Get32(env, 11), Get32(env, 15), Get32(env, 19),
                Get32(env, 23), if pos then AsI32(Get32(env, 27)) else 0,
                if pos then AsI32(Get32(env, 31)) else 0, if pos then AsI32(Get32(env, 35)) else 0))
  }

  // ----- round trip --------------------------------------------------------------------------------

  /** Fields a message's own flags exclude do not travel and come back as zero; a lag that does
      not fit the sender's buffer is left off. */
  function Normal(m: Message, lagFits: bool): (n: Message) {
    match m
    case TxFrame(preset, flags, txSeq, _, _, _, _, _, wire) =>
      if IsRelay(flags) then m else TxFrame(preset, flags, txSeq, 0, 0, 0, 0, 0, wire)
    case TxResult(txSeq, rc, defers, txMs, hasLag, lagMs) =>
      if hasLag && lagFits then m else TxResult(txSeq, rc, defers, txMs, false, 0)
    case Status(preset, flags, a, b, c, d, e, f, _, _, _) =>
      if HasPos(flags) then m else Status(preset, flags, a, b, c, d, e, f, 0, 0, 0)
    case _ => m
  }

  lemma RxRoundTrip(m: Message)
    requires m.RxFrame? && WireOk(m.wire)
    ensures DecodeRx(Layout(m, true)) == Ok(m)
  {
    hide Put16, Put32, Get16, Get32;
    var head: seq<byte>, tail := [1, m.preset], [m.flags] + m.wire;
    var rssi, snr := AsU16(m.rssi), AsU8(m.snr);
    var env := Layout(m, true);
    assert env == head + Put16(rssi) + ([snr] + Fields([m.rxMs]) + tail);
    Put16Get(head, rssi, [snr] + Fields([m.rxMs]) + tail);
    assert env == (head + Put16(rssi) + [snr]) + Fields([m.rxMs]) + tail;
    FieldAt(head + Put16(rssi) + [snr], [m.rxMs], tail, 0);
    SignedRoundTrips(m.snr, m.rssi, 0);
    assert env[RX_HDR..] == m.wire;
  }

  lemma TxRoundTrip(m: Message)
    requires m.TxFrame? && WireOk(m.wire)
    ensures DecodeTx(Layout(m, true)) == Ok(Normal(m, true))
  {
    hide Put16, Put32, Get16, Get32, Fields;
    var head: seq<byte> := [2, m.preset, m.flags];
    var env := Layout(m, true);
    if IsRelay(m.flags) {
      var pre, post := head + Put16(m.txSeq), [m.dupe] + m.wire;
      assert env == head + Put16(m.txSeq) + (Fields(RelayFields(m)) + [m.dupe] + m.wire);
      Put16Get(head, m.txSeq, Fields(RelayFields(m)) + [m.dupe] + m.wire);
      assert env == pre + Fields(RelayFields(m)) + post;
      FieldAt(pre, RelayFields(m), post, 0);
      FieldAt(pre, RelayFields(m), post, 1);
      FieldAt(pre, RelayFields(m), post, 2);
      FieldAt(pre, RelayFields(m), post, 3);
      assert env[TX_RELAY_HDR..] == m.wire;
    } else {
      assert env == head + Put16(m.txSeq) + m.wire;
      Put16Get(head, m.txSeq, m.wire);
      assert env[TX_HDR..] == m.wire;
    }
  }

  lemma ResultRoundTrip(m: Message, lagFits: bool)
    requires m.TxResult?
    ensures DecodeResult(Layout(m, lagFits)) == Ok(Normal(m, lagFits))
  {
    hide Put16, Put32, Get16, Get32, Fields;
    var env, rc := Layout(m, lagFits), AsU8(m.rc);
    var lag := if m.hasLag && lagFits then Put16(m.lagMs) else [];
    assert env == [3] + Put16(m.txSeq) + ([rc, m.defers] + Fields([m.txMs]) + lag);
    Put16Get([3], m.txSeq, [rc, m.defers] + Fields([m.txMs]) + lag);
    var pre := [3] + Put16(m.txSeq) + [rc, m.defers];
    assert env == pre + Fields([m.txMs]) + lag;
    FieldAt(pre, [m.txMs], lag, 0);
    if m.hasLag && lagFits {
      assert env == (pre + Fields([m.txMs])) + Put16(m.lagMs) + [];
      Put16Get(pre + Fields([m.txMs]), m.lagMs, []);
    }
    SignedRoundTrips(m.rc, 0, 0);
  }

  lemma StatusRoundTrip(m: Message)
    requires m.Status?
    ensures DecodeStatus(Layout(m, true)) == Ok(Normal(m, true))
  {
    hide Put32, Get32, Fields;
    var head: seq<byte>, vs := [4, m.preset, m.flags], StatusFields(m);
    var env := Layout(m, true);
    assert env == head + Fields(vs) + [];
    forall i | 0 <= i < |vs| ensures Get32(env, 3 + 4 * i) == vs[i] { FieldAt(head, vs, [], i); }
    assert Get32(env, 3 + 4 * 0) == vs[0] && Get32(env, 3 + 4 * 1) == vs[1] && Get32(env, 3 + 4 * 2) == vs[2];
    assert Get32(env, 3 + 4 * 3) == vs[3] && Get32(env, 3 + 4 * 4) == vs[4] && Get32(env, 3 + 4 * 5) == vs[5];
    if HasPos(m.flags) {
      assert Get32(env, 3 + 4 * 6) == vs[6] && Get32(env, 3 + 4 * 7) == vs[7] && Get32(env, 3 + 4 * 8) == vs[8];
      SignedRoundTrips(0, 0, m.lat);
      SignedRoundTrips(0, 0, m.lon);
      SignedRoundTrips(0, 0, m.alt);
    }
  }

  /** For every message and every buffer, whatever encodes decodes back to itself. */
  lemma EnvelopeRoundTrip(m: Message, outSize: nat)
    requires Encode(m, outSize).Ok?
    ensures Decode(Encode(m, outSize).value) == Ok(Normal(m, outSize >= TX_RESULT_LAG_LEN))
    ensures 0 < |Encode(m, outSize).value| <= outSize
  {
    hide DecodeRx, DecodeTx, DecodeResult, DecodeStatus, Put32, Get32;
    match m
    case RxFrame(_, _, _, _, _, _) => RxRoundTrip(m);
    case TxFrame(_, _, _, _, _, _, _, _, _) => TxRoundTrip(m);
    case TxResult(_, _, _, _, _, _) => ResultRoundTrip(m, outSize >= TX_RESULT_LAG_LEN);
    case Status(_, _, _, _, _, _, _, _, _, _, _) => StatusRoundTrip(m);
    case SetPreset(_) =>
    case TxCancel(src, id) =>
      assert [7] + Fields([src, id]) == [7] + Fields([src, id]) + [];
      FieldAt([7], [src, id], [], 0);
      FieldAt([7], [src, id], [], 1);
    case SetPolicy(_, txPower) => SignedRoundTrips(txPower, 0, 0);
  }

  /** Encoding fails exactly for a frame without a wire part (invalid), or one whose wire part is too
      long, or a buffer too short for the message (message size); a lag is dropped sooner than that. */
  lemma EncodesExactly(m: Message, outSize: nat)
    ensures Encode(m, outSize) == Err(Inval) <==> (m.RxFrame? || m.TxFrame?) && m.wire == []
    ensures Encode(m, outSize) == Err(MsgSize)
            <==> match m
                 case RxFrame(_, _, _, _, _, wire) => |wire| > 255 || (wire != [] && outSize < 10 + |wire|)
                 case TxFrame(_, flags, _, _, _, _, _, _, wire) =>
                   |wire| > 255 || (wire != [] && outSize < (if IsRelay(flags) then 22 else 5) + |wire|)
                 case TxResult(_, _, _, _, _, _) => outSize < 9
                 case Status(_, flags, _, _, _, _, _, _, _, _, _) => outSize < if HasPos(flags) then 39 else 27
                 case SetPreset(_) => outSize < 2
                 case TxCancel(_, _) => outSize < 9
                 case SetPolicy(_, _) => outSize < 3
    ensures Encode(m, outSize) != Err(BadMsg)
  {
    hide Put16, Put32, Fields;
  }

  // ----- what decodes was encoded ------------------------------------------------------------------

  lemma GetPut16(bs: seq<byte>, i: nat)
    requires i + 2 <= |bs|
    ensures Put16(Get16(bs, i)) == bs[i..i + 2]
  {
  }

  lemma GetPut32(bs: seq<byte>, i: nat)
    requires i + 4 <= |bs|
    ensures Put32(Get32(bs, i)) == bs[i..i + 4]
  {
    BytesOfFour(bs[i], bs[i + 1], bs[i + 2], bs[i + 3]);
  }

  lemma BytesOfFour(a: byte, b: byte, c: byte, d: byte)
    ensures var v := a + b * 0x100 + c * 0x1_0000 + d * 0x100_0000;
            v % 0x100 == a && v / 0x100 % 0x100 == b && v / 0x1_0000 % 0x100 == c && v / 0x100_0000 == d
  {
    var v := a + b * 0x100 + c * 0x1_0000 + d * 0x100_0000;
    assert v / 0x100 == b + c * 0x100 + d * 0x1_0000;
    assert v / 0x1_0000 == c + d * 0x100;
  }

  lemma UnsignedRoundTrips(a: byte, b: u16, c: u32)
    ensures AsU8(AsI8(a)) == a && AsU16(AsI16(b)) == b && AsU32(AsI32(c)) == c
  {
  }

  lemma {:induction false} FieldsBack(bs: seq<byte>, i: nat, vs: seq<u32>)
    requires i + 4 * |vs| <= |bs| && forall k :: 0 <= k < |vs| ==> vs[k] == Get32(bs, i + 4 * k)
    ensures Fields(vs) == bs[i..i + 4 * |vs|]
  {
    hide Put32, Get32;
    if |vs| > 0 {
      var n := |vs| - 1;
      FieldsBack(bs, i, vs[..n]);
      GetPut32(bs, i + 4 * n);
    }
  }

  lemma RxBack(env: seq<byte>)
    requires |env| >= 1 && env[0] == 1 && DecodeRx(env).Ok?
    ensures Layout(DecodeRx(env).value, true) == env
  {
    hide Put16, Put32, Get16, Get32, Fields;
    GetPut16(env, 2);
    UnsignedRoundTrips(env[4], Get16(env, 2), 0);
    FieldsBack(env, 5, [Get32(env, 5)]);
    assert env == [env[0], env[1]] + env[2..4] + [env[4]] + env[5..9] + [env[9]] + env[10..];
  }

  lemma TxBack(env: seq<byte>)
    requires |env| >= 1 && env[0] == 2 && DecodeTx(env).Ok?
    ensures Layout(DecodeTx(env).value, true) == env
  {
    hide Put16, Put32, Get16, Get32, Fields;
    GetPut16(env, 3);
    if IsRelay(env[2]) {
      FieldsBack(env, 5, [Get32(env, 5), Get32(env, 9), Get32(env, 13), Get32(env, 17)]);
      assert env == [env[0], env[1], env[2]] + env[3..5] + (env[5..21] + [env[21]]) + env[22..];
    } else {
      assert env == [env[0], env[1], env[2]] + env[3..5] + [] + env[5..];
    }
  }

  lemma ResultBack(env: seq<byte>)
    requires |env| >= 1 && env[0] == 3 && DecodeResult(env).Ok?
    ensures Layout(DecodeResult(env).value, true)
            == env[..if |env| >= TX_RESULT_LAG_LEN then TX_RESULT_LAG_LEN else TX_RESULT_LEN]
  {
    hide Put16, Put32, Get16, Get32, Fields;
    GetPut16(env, 1);
    UnsignedRoundTrips(env[3], 0, 0);
    FieldsBack(env, 5, [Get32(env, 5)]);
    assert env[..9] == [env[0]] + env[1..3] + [env[3], env[4]] + env[5..9] + [];
    if |env| >= TX_RESULT_LAG_LEN {
      GetPut16(env, 9);
      assert env[..11] == [env[0]] + env[1..3] + [env[3], env[4]] + env[5..9] + env[9..11];
    }
  }

  lemma StatusBack(env: seq<byte>)
    requires |env| >= 1 && env[0] == 4 && DecodeStatus(env).Ok?
    ensures Layout(DecodeStatus(env).value, true) == env[..if HasPos(env[2]) then STATUS_POS_LEN else STATUS_LEN]
  {
    hide Put32, Get32, Fields;
    var vs := StatusFields(DecodeStatus(env).value);
    if HasPos(env[2]) {
      UnsignedRoundTrips(0, 0, Get32(env, 27));
      UnsignedRoundTrips(0, 0, Get32(env, 31));
      UnsignedRoundTrips(0, 0, Get32(env, 35));
      FieldsBack(env, 3, vs);
      assert env[..39] == [env[0], env[1], env[2]] + env[3..39];
    } else {
      FieldsBack(env, 3, vs);
      assert env[..27] == [env[0], env[1], env[2]] + env[3..27];
    }
  }

  lemma OrdersBack(env: seq<byte>)
    requires Decode(env).Ok? && env[0] >= 5
    ensures Layout(Decode(env).value, true) <= env
  {
    hide Put32, Get32, Fields, DecodeRx, DecodeTx, DecodeResult, DecodeStatus;
    if env[0] == 7 {
      FieldsBack(env, 1, [Get32(env, 1), Get32(env, 5)]);
      assert env[..9] == [env[0]] + env[1..9];
    } else if env[0] == 8 {
      UnsignedRoundTrips(env[2], 0, 0);
    }
  }

  /** Bytes that are this message's: all of them for a frame, the first of them otherwise. */
  predicate Carries(env: seq<byte>, m: Message) {
    if m.RxFrame? || m.TxFrame? then WireOk(m.wire) && env == Layout(m, true) else Layout(m, true) <= env
  }

  /** The decoder invents nothing: what it returns is what those bytes encode. */
  lemma DecodedWasEncoded(env: seq<byte>)
    requires Decode(env).Ok?
    ensures Carries(env, Decode(env).value) && Normal(Decode(env).value, true) == Decode(env).value
  {
    hide Layout;
    if env[0] == 1 {
      RxBack(env);
    } else if env[0] == 2 {
      TxBack(env);
    } else if env[0] == 3 {
      ResultBack(env);
    } else if env[0] == 4 {
      StatusBack(env);
    } else {
      OrdersBack(env);
    }
  }

  /** It refuses exactly the bytes no message encodes to. */
  lemma DecodesExactly(env: seq<byte>)
    ensures Decode(env).Ok? <==> exists m :: Carries(env, m)
  {
    if Decode(env).Ok? { DecodedWasEncoded(env); }
    forall m | Carries(env, m) ensures Decode(env).Ok? { CarriedDecodes(env, m); }
  }

  lemma CarriedDecodes(env: seq<byte>, m: Message)
    requires Carries(env, m)
    ensures Decode(env).Ok?
  {
    var bs := Layout(m, true);
    assert Encode(m, |bs| + TX_RESULT_LAG_LEN) == Ok(bs);
    EnvelopeRoundTrip(m, |bs| + TX_RESULT_LAG_LEN);
    if !m.RxFrame? && !m.TxFrame? {
      assert bs[0] != 1 && bs[0] != 2;
      PrefixDecodes(bs, env);
    }
  }

  lemma PrefixDecodes(bs: seq<byte>, env: seq<byte>)
    requires Decode(bs).Ok? && bs[0] != 1 && bs[0] != 2 && bs <= env
    ensures Decode(env).Ok?
  {
    assert forall i :: 0 <= i < |bs| ==> env[i] == bs[i];
  }

  lemma OneField(a: u32)
    ensures Fields([a]) == Put32(a)
  {
    assert [a][..0] == [];
  }

  lemma TwoFields(a: u32, b: u32)
    ensures Fields([a, b]) == Put32(a) + Put32(b)
  {
    assert [a, b][..1] == [a];
    OneField(a);
  }

  lemma FourFields(a: u32, b: u32, c: u32, d: u32)
    ensures Fields([a, b, c, d]) == Put32(a) + Put32(b) + Put32(c) + Put32(d)
  {
    assert [a, b, c, d][..3] == [a, b, c] && [a, b, c][..2] == [a, b];
    TwoFields(a, b);
  }

  /** The byte positions themselves, on one message of each layout: little-endian fields, the signed
      ones in two's complement. */
  lemma KnownRx()
    ensures Layout(RxFrame(2, -3, -4, 0x0807_0605, 9, [10, 11]), true) == [1, 2, 0xfd, 0xff, 0xfc, 5, 6, 7, 8, 9, 10, 11]
  {
    OneField(0x0807_0605);
    hide Fields;
  }

  lemma KnownTx(m: Message)
    requires m.TxFrame? && IsRelay(m.flags)
    ensures Layout(m, true)
            == [2, m.preset, m.flags] + Put16(m.txSeq) + Put32(m.relaySrc) + Put32(m.relayId) + Put32(m.relayRxMs)
               + Put32(m.notBeforeMs) + [m.dupe] + m.wire
  {
    FourFields(m.relaySrc, m.relayId, m.relayRxMs, m.notBeforeMs);
    hide Fields, Put32, Put16;
  }

  lemma KnownStatus(m: Message)
    requires m.Status? && !HasPos(m.flags)
    ensures Layout(m, true)
            == [4, m.preset, m.flags] + Put32(m.hwid) + Put32(m.brain) + Put32(m.rxFrames) + Put32(m.txFrames)
               + Put32(m.uptimeS) + Put32(m.rxDropped)
  {
    var vs := StatusFields(m);
    FourFields(vs[0], vs[1], vs[2], vs[3]);
    hide Put32;
    assert vs[..5][..4] == [vs[0], vs[1], vs[2], vs[3]];
    assert Fields(vs) == Fields(vs[..5]) + Put32(vs[5]) && Fields(vs[..5]) == Fields(vs[..5][..4]) + Put32(vs[4]);
    hide Fields;
  }

  lemma KnownResult()
    ensures Layout(TxResult(0x0302, -5, 6, 0x0a09_0807, true, 0x0c0b), true) == [3, 2, 3, 0xfb, 6, 7, 8, 9, 10, 11, 12]
  {
    OneField(0x0a09_0807);
    hide Fields;
  }

  lemma KnownOrders()
    ensures Layout(TxCancel(0x0403_0201, 0x0807_0605), true) == [7, 1, 2, 3, 4, 5, 6, 7, 8]
    ensures Layout(SetPreset(6), true) == [5, 6] && Layout(SetPolicy(1, -2), true) == [8, 1, 0xfe]
  {
    TwoFields(0x0403_0201, 0x0807_0605);
    hide Fields;
  }

  /** "A wire frame plus its header" does not always fit: a frame to transmit encodes into a
      full-size envelope exactly when it is not a relay or its wire is at most 249 bytes. */
  lemma RelayFitsExactly(m: Message)
    requires m.TxFrame? && WireOk(m.wire)
    ensures Encode(m, ENV_MAX).Ok? <==> !IsRelay(m.flags) || |m.wire| <= ENV_MAX - TX_RELAY_HDR
  {
  }

  /** The compatibility rule: a receiver ignores what a newer sender appended to a fixed-layout
      message, except that two bytes after a short result are read as its lag. */
  lemma AppendedFieldsAreIgnored(env: seq<byte>, tail: seq<byte>)
    requires Decode(env).Ok? && env[0] != 1 && env[0] != 2
    ensures Decode(env + tail) == Decode(env)
            <==> !(env[0] == 3 && |env| < TX_RESULT_LAG_LEN <= |env + tail|)
  {
    hide Put32;
    assert forall i :: 0 <= i < |env| ==> (env + tail)[i] == env[i];
  }

  /** Envelope end to end: whatever encodes into a full-size envelope, cut into chunks at any
      sizes as kind ATTACH and reassembled by a receiver in any state, arrives as one frame that
      decodes to the original message. */
  lemma MessageArrives(m: Message, sizes: Sizes, r: Reasm)
    requires Encode(m, ENV_MAX).Ok? && Usable(sizes)
    ensures var env := Encode(m, ENV_MAX).value;
            && StartKind(env, KIND_ATTACH).Ready?
            && CompletesLast(Feed(r, Chunks(StartKind(env, KIND_ATTACH).ck, sizes, 0)).1, env, KIND_ATTACH)
            && Decode(env) == Ok(Normal(m, true))
  {
    hide Layout, Decode, Feed, Chunks;
    EnvelopeRoundTrip(m, ENV_MAX);
    FrameRoundTrip(Encode(m, ENV_MAX).value, KIND_ATTACH, r, sizes);
  }
}
