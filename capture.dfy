/** The packet path of src/main.rs: the radiotap prefix walk, the length gate
    of `process_packet`, the Remote ID pack loop of `parse_80211_mgt` and the
    alternative dispatcher `create_special_message`. The 802.11 frame parser
    is a parameter. */
module Capture {
  import opened Bytes
  import opened Wrappers
  import opened Message
  import BaseMessageDecoder
  import PositionVectorDecoder
  import SystemMessageDecoder
  import MessageDispatch
  import Utf8

  // ---------------------------------------------------------------------
  // Radiotap.

  const SIGNAL_FIELD: uint8 := 0x03
  const RATE_FIELD: uint8 := 0x02
  const CHANNEL_FIELD: uint8 := 0x12

  /** The radiotap metrics as raw integers: the signal as the signed byte it
      is converted from, the rate in units of 0.5 Mbit/s, the channel
      frequency. */
  datatype RadiotapHeader = RadiotapHeader(signal: int8, rateHalfMbps: uint8, channelFreq: uint16)

  const NO_METRICS := RadiotapHeader(0, 0, 0)

  /** The walk from `offset` on, with metrics `h` so far. */
  function Walk(data: seq<uint8>, headerLen: nat, offset: nat, h: RadiotapHeader): (r: Outcome<RadiotapHeader>)
    ensures r.Panicked? ==> r.panic.IndexOutOfRange? && r.panic.len == |data| <= r.panic.index <= headerLen + 1
    decreases headerLen - offset
  {
    if offset >= headerLen then Returned(h)
    else if offset >= |data| then Panicked(IndexOutOfRange(offset, |data|))
    else
      var fieldType := data[offset];
      var next := offset + 1;
      if fieldType == SIGNAL_FIELD then
        if next >= |data| then Panicked(IndexOutOfRange(next, |data|))
        else Walk(data, headerLen, next + 1, h.(signal := AsInt8(data[next])))
      else if fieldType == RATE_FIELD then
        if next >= |data| then Panicked(IndexOutOfRange(next, |data|))
        else Walk(data, headerLen, next + 1, h.(rateHalfMbps := data[next]))
      else if fieldType == CHANNEL_FIELD then
        if next >= |data| then Panicked(IndexOutOfRange(next, |data|))
        else if next + 1 >= |data| then Panicked(IndexOutOfRange(next + 1, |data|))
        else Walk(data, headerLen, next + 4, h.(channelFreq := LeU16(data[next..next + 2])))
      else Returned(h)
  }

  /** What `parse_radiotap` computes: the metrics and the frame after the
      `data[2]` header bytes, or the panic of its first out-of-range read. */
  function Radiotap(data: seq<uint8>): (r: Outcome<(RadiotapHeader, seq<uint8>)>)
    ensures r.Returned? ==> |data| > 2 && data[2] <= |data| && r.value.1 == data[data[2]..]
    ensures r.Panicked? ==> r.panic.IndexOutOfRange? && r.panic.len == |data| <= r.panic.index
  {
    if |data| <= 2 then Panicked(IndexOutOfRange(2, |data|))
    else
      var headerLen := data[2];
      match Walk(data, headerLen, 0, NO_METRICS)
      case Panicked(p) => Panicked(p)
      case Returned(h) =>
        if headerLen > |data| then Panicked(IndexOutOfRange(headerLen, |data|))
        else Returned((h, data[headerLen..]))
  }

  /** `parse_radiotap`: a loop over the type-tagged fields of the header. */
  method ParseRadiotap(data: seq<uint8>) returns (r: Outcome<(RadiotapHeader, seq<uint8>)>)
    ensures r == Radiotap(data)
  {
    if |data| <= 2 {
      return Panicked(IndexOutOfRange(2, |data|));
    }
    var offset := 0;
    var headerLen := data[2] as nat;
    var signal: int8 := 0;
    var rate: uint8 := 0;
    var channelFreq: uint16 := 0;
    while offset < headerLen
      invariant Walk(data, headerLen, offset, RadiotapHeader(signal, rate, channelFreq))
             == Walk(data, headerLen, 0, NO_METRICS)
      decreases headerLen - offset
    {
      if offset >= |data| {
        return Panicked(IndexOutOfRange(offset, |data|));
      }
      var fieldType := data[offset];
      offset := offset + 1;
      if fieldType == SIGNAL_FIELD {
        if offset >= |data| {
          return Panicked(IndexOutOfRange(offset, |data|));
        }
        signal := AsInt8(data[offset]);
        offset := offset + 1;
      } else if fieldType == RATE_FIELD {
        if offset >= |data| {
          return Panicked(IndexOutOfRange(offset, |data|));
        }
        rate := data[offset];
        offset := offset + 1;
      } else if fieldType == CHANNEL_FIELD {
        if offset >= |data| {
          return Panicked(IndexOutOfRange(offset, |data|));
        }
        if offset + 1 >= |data| {
          return Panicked(IndexOutOfRange(offset + 1, |data|));
        }
        channelFreq := LeU16(data[offset..offset + 2]);
        offset := offset + 4;
      } else {
        break;
      }
    }
    if headerLen > |data| {
      return Panicked(IndexOutOfRange(headerLen, |data|));
    }
    r := Returned((RadiotapHeader(signal, rate, channelFreq), data[headerLen..]));
  }

  /** The walk reads no further than one byte past the header, so it cannot
      panic when two bytes follow the header's last byte. */
  lemma {:induction false} WalkInBounds(data: seq<uint8>, headerLen: nat, offset: nat, h: RadiotapHeader)
    requires headerLen + 2 <= |data|
    ensures Walk(data, headerLen, offset, h).Returned?
    decreases headerLen - offset
  {
    if offset < headerLen {
      var fieldType := data[offset];
      var next := offset + 1;
      if fieldType == SIGNAL_FIELD {
        WalkInBounds(data, headerLen, next + 1, h.(signal := AsInt8(data[next])));
      } else if fieldType == RATE_FIELD {
        WalkInBounds(data, headerLen, next + 1, h.(rateHalfMbps := data[next]));
      } else if fieldType == CHANNEL_FIELD {
        WalkInBounds(data, headerLen, next + 4, h.(channelFreq := LeU16(data[next..next + 2])));
      }
    }
  }

  /** The returned frame is the input after its `data[2]` header bytes; a packet
      with at least `data[2] + 2` bytes never panics; and a header whose first
      byte is no known field type, or which is empty, leaves every metric 0. */
  lemma RadiotapProperties(data: seq<uint8>)
    ensures Radiotap(data).Returned? ==> |data| > 2 && data[2] <= |data| && Radiotap(data).value.1 == data[data[2]..]
    ensures |data| > 2 && data[2] + 2 <= |data| ==> Radiotap(data).Returned?
    ensures |data| > 2 && (data[2] == 0 || data[0] !in {SIGNAL_FIELD, RATE_FIELD, CHANNEL_FIELD}) ==>
      Radiotap(data).Returned? ==> Radiotap(data).value.0 == NO_METRICS
  {
    if |data| > 2 && data[2] + 2 <= |data| {
      WalkInBounds(data, data[2], 0, NO_METRICS);
    }
  }

  // ---------------------------------------------------------------------
  // The management frame and its Remote ID vendor element.

  const VENDOR_SPECIFIC_ELEMENT: uint8 := 221
  const REMOTE_ID_OUI_TYPE: uint8 := 13
  const PACK_SIZE: nat := 25
  /** Packs start after the four header bytes of the vendor data. */
  const PACKS_START: nat := 4

  /** A vendor-specific information element as the frame parser reports it. */
  datatype VendorElement = VendorElement(elementId: uint8, ouiType: uint8, data: seq<uint8>)

  /** What the frame parser yields: a beacon with its vendor elements, or some
      other frame. A parse error is `None`. */
  datatype Frame = Beacon(vendorSpecific: seq<VendorElement>) | OtherFrame

  /** The three fields `parse_80211_mgt` writes. */
  datatype UploadData = UploadData(rid: string, longitude: int32, latitude: int32)

  const EMPTY_UPLOAD := UploadData("", 0, 0)

  /** How `parse_80211_mgt` ends when it does not panic. */
  datatype MgtOutcome =
    | ParseFailed
    | NotBeacon
    | NotRemoteId
    | Collected(upload: UploadData)

  /** Pack i of the vendor data, read as `vendor_data[25i+4 .. 25i+29]`. */
  function Pack(vd: seq<uint8>, i: nat): seq<uint8>
    requires PACK_SIZE * i + PACKS_START + PACK_SIZE <= |vd|
  {
    vd[PACK_SIZE * i + PACKS_START .. PACK_SIZE * i + PACKS_START + PACK_SIZE]
  }

  /** Turns one pack into a message; the loop uses `AnyMessage::from_bytes`,
      and its properties below hold for any decoder. */
  type PackDecoder = seq<uint8> -> Result<MessageDispatch.AnyMessage>

  /** One decoded pack folded into the record: a Basic ID sets `rid`, a
      Location sets the coordinates, a System message changes nothing. */
  function Absorb(u: UploadData, msg: MessageDispatch.AnyMessage): (r: UploadData)
    ensures msg.Base? ==> r.rid == msg.base.uasId && r.latitude == u.latitude && r.longitude == u.longitude
    ensures msg.PositionVector? ==>
      r.rid == u.rid && r.latitude == msg.positionVector.latitude && r.longitude == msg.positionVector.longitude
    ensures msg.System? ==> r == u
  {
    match msg
    case Base(bm) => u.(rid := bm.uasId)
    case PositionVector(pvm) => u.(longitude := pvm.longitude, latitude := pvm.latitude)
    case System(_) => u
  }

  /** The pack loop from pack i on. The range ends are `u8` sums, so pack 10,
      whose end would be 279, stops the loop with an overflow panic. */
  function Fold(vd: seq<uint8>, count: nat, i: nat, u: UploadData, decode: PackDecoder): (r: Outcome<UploadData>)
    requires i <= count
    ensures r == Panicked(ArithmeticOverflow) ==> count > 10
    ensures r.Panicked? && r.panic.IndexOutOfRange? ==> r.panic.len == |vd| < r.panic.index <= 255
    ensures r.Panicked? ==> r.panic.ArithmeticOverflow? || r.panic.IndexOutOfRange? || r.panic.UnwrapFailed?
    decreases count - i
  {
    if i == count then Returned(u)
    else if PACK_SIZE * i + PACKS_START + PACK_SIZE > 255 then Panicked(ArithmeticOverflow)
    else if PACK_SIZE * i + PACKS_START + PACK_SIZE > |vd| then
      Panicked(IndexOutOfRange(PACK_SIZE * i + PACKS_START + PACK_SIZE, |vd|))
    else match decode(Pack(vd, i))
      case Err(_) => Panicked(UnwrapFailed)
      case Ok(msg) => Fold(vd, count, i + 1, Absorb(u, msg), decode)
  }

  /** The vendor data of a Remote ID element. The logging call reads bytes 0,
      3 and 2 before the loop; `vendor_data[3]` is the pack count. */
  function CollectPacks(vd: seq<uint8>): (r: Outcome<UploadData>)
    ensures |vd| < 4 ==> r.Panicked? && r.panic.IndexOutOfRange? && r.panic.len == |vd|
    ensures |vd| >= 4 && vd[3] == 0 ==> r == Returned(EMPTY_UPLOAD)
  {
    if |vd| == 0 then Panicked(IndexOutOfRange(0, 0))
    else if |vd| <= 3 then Panicked(IndexOutOfRange(3, |vd|))
    else Fold(vd, vd[3], 0, EMPTY_UPLOAD, MessageDispatch.FromBytes)
  }

  /** A beacon's vendor elements: only the first is examined. */
  function BeaconOutcome(vendorSpecific: seq<VendorElement>): (r: Outcome<MgtOutcome>)
    ensures r.Returned? ==> |vendorSpecific| > 0 && (r.value.Collected? || r.value == NotRemoteId)
    ensures r.Returned? && r.value.Collected? ==>
      vendorSpecific[0].elementId == VENDOR_SPECIFIC_ELEMENT && vendorSpecific[0].ouiType == REMOTE_ID_OUI_TYPE
  {
    if |vendorSpecific| == 0 then Panicked(IndexOutOfRange(0, 0))
    else
      var e := vendorSpecific[0];
      if !(e.elementId == VENDOR_SPECIFIC_ELEMENT && e.ouiType == REMOTE_ID_OUI_TYPE) then Returned(NotRemoteId)
      else match CollectPacks(e.data)
        case Panicked(p) => Panicked(p)
        case Returned(u) => Returned(Collected(u))
  }

  /** What `parse_80211_mgt` does with a frame. */
  function Mgt(data: seq<uint8>, parseFrame: seq<uint8> -> Option<Frame>): (r: Outcome<MgtOutcome>)
    ensures r == Returned(ParseFailed) <==> parseFrame(data).None?
    ensures r == Returned(NotBeacon) <==> parseFrame(data) == Some(OtherFrame)
    ensures r.Panicked? || r.value.Collected? || r.value == NotRemoteId ==>
      parseFrame(data).Some? && parseFrame(data).value.Beacon?
  {
    match parseFrame(data)
    case None => Returned(ParseFailed)
    case Some(OtherFrame) => Returned(NotBeacon)
    case Some(Beacon(vs)) => BeaconOutcome(vs)
  }

  /** `parse_80211_mgt`: the frame checks, then the pack loop. */
  method ParseMgt(data: seq<uint8>, parseFrame: seq<uint8> -> Option<Frame>) returns (r: Outcome<MgtOutcome>)
    ensures r == Mgt(data, parseFrame)
  {
    var frame := parseFrame(data);
    if frame == None {
      return Returned(ParseFailed);
    }
    if frame.value == OtherFrame {
      return Returned(NotBeacon);
    }
    var vendorSpecific := frame.value.vendorSpecific;
    if |vendorSpecific| == 0 {
      return Panicked(IndexOutOfRange(0, 0));
    }
    if !(vendorSpecific[0].elementId == VENDOR_SPECIFIC_ELEMENT && vendorSpecific[0].ouiType == REMOTE_ID_OUI_TYPE) {
      return Returned(NotRemoteId);
    }
    var upload := RunPacks(vendorSpecific[0].data, MessageDispatch.FromBytes);
    if upload.Panicked? {
      return Panicked(upload.panic);
    }
    r := Returned(Collected(upload.value));
  }

  /** The pack loop of `parse_80211_mgt`, which updates the record field by
      field; `parse_80211_mgt` passes `AnyMessage::from_bytes` as `decode`. */
  method RunPacks(vendorData: seq<uint8>, decode: PackDecoder) returns (r: Outcome<UploadData>)
    ensures |vendorData| == 0 ==> r == Panicked(IndexOutOfRange(0, 0))
    ensures 0 < |vendorData| <= 3 ==> r == Panicked(IndexOutOfRange(3, |vendorData|))
    ensures |vendorData| > 3 ==> r == Fold(vendorData, vendorData[3], 0, EMPTY_UPLOAD, decode)
  {
    var upload := EMPTY_UPLOAD;
    if |vendorData| == 0 {
      return Panicked(IndexOutOfRange(0, 0));
    }
    if |vendorData| <= 3 {
      return Panicked(IndexOutOfRange(3, |vendorData|));
    }
    var count := vendorData[3];
    for i := 0 to count
      invariant Fold(vendorData, count, i, upload, decode) == Fold(vendorData, count, 0, EMPTY_UPLOAD, decode)
    {
      if PACK_SIZE * i + PACKS_START + PACK_SIZE > 255 {
        return Panicked(ArithmeticOverflow);
      }
      var start := PACK_SIZE * i + PACKS_START;
      var end := PACK_SIZE * i + PACKS_START + PACK_SIZE;
      if end > |vendorData| {
        return Panicked(IndexOutOfRange(end, |vendorData|));
      }
      var pack := vendorData[start..end];
      assert pack == Pack(vendorData, i);
      var message := decode(pack);
      if message.Err? {
        return Panicked(UnwrapFailed);
      }
      ghost var before := upload;
      match message.value {
        case Base(bm) =>
          upload := upload.(rid := bm.uasId);
        case PositionVector(pvm) =>
          upload := upload.(longitude := pvm.longitude);
          upload := upload.(latitude := pvm.latitude);
        case System(_) =>
      }
      assert upload == Absorb(before, message.value);
    }
    r := Returned(upload);
  }

  // ---------------------------------------------------------------------
  // Properties of the pack loop.

  /** Whether pack j exists and decodes, independently of the loop. */
  predicate PackDecodes(vd: seq<uint8>, j: nat, decode: PackDecoder) {
    PACK_SIZE * j + PACKS_START + PACK_SIZE <= |vd| && decode(Pack(vd, j)).Ok?
  }

  function PackMessage(vd: seq<uint8>, j: nat, decode: PackDecoder): MessageDispatch.AnyMessage
    requires PackDecodes(vd, j, decode)
  {
    decode(Pack(vd, j)).value
  }

  /** The loop from pack i completes exactly when it stops before pack 10,
      every remaining pack lies inside the vendor data, and every remaining
      pack decodes; one bad pack aborts the whole beacon. */
  lemma {:induction false} FoldCompletes(vd: seq<uint8>, count: nat, i: nat, u: UploadData, decode: PackDecoder)
    requires i <= count
    ensures Fold(vd, count, i, u, decode).Returned? <==>
      && (i == count || (count <= 10 && PACK_SIZE * count + PACKS_START <= |vd|))
      && (forall j | i <= j < count :: PackDecodes(vd, j, decode))
    decreases count - i
  {
    if i < count {
      var end := PACK_SIZE * i + PACKS_START + PACK_SIZE;
      if end > 255 {
        assert count > 10;
      } else if end > |vd| {
        assert !(count <= 10 && PACK_SIZE * count + PACKS_START <= |vd|);
      } else if !PackDecodes(vd, i, decode) {
        assert Fold(vd, count, i, u, decode) == Panicked(UnwrapFailed);
      } else {
        var msg := PackMessage(vd, i, decode);
        assert Fold(vd, count, i, u, decode) == Fold(vd, count, i + 1, Absorb(u, msg), decode);
        FoldCompletes(vd, count, i + 1, Absorb(u, msg), decode);
      }
    }
  }

  /** Pack j is the last Basic ID among packs i..count. */
  predicate LastBaseAt(vd: seq<uint8>, i: nat, count: nat, j: nat, decode: PackDecoder) {
    && i <= j < count
    && PackDecodes(vd, j, decode) && PackMessage(vd, j, decode).Base?
    && forall k | j < k < count :: PackDecodes(vd, k, decode) ==> !PackMessage(vd, k, decode).Base?
  }

  /** Pack j is the last Location among packs i..count. */
  predicate LastPositionAt(vd: seq<uint8>, i: nat, count: nat, j: nat, decode: PackDecoder) {
    && i <= j < count
    && PackDecodes(vd, j, decode) && PackMessage(vd, j, decode).PositionVector?
    && forall k | j < k < count :: PackDecodes(vd, k, decode) ==> !PackMessage(vd, k, decode).PositionVector?
  }

  predicate NoBaseFrom(vd: seq<uint8>, i: nat, count: nat, decode: PackDecoder) {
    forall k | i <= k < count :: PackDecodes(vd, k, decode) ==> !PackMessage(vd, k, decode).Base?
  }

  predicate NoPositionFrom(vd: seq<uint8>, i: nat, count: nat, decode: PackDecoder) {
    forall k | i <= k < count :: PackDecodes(vd, k, decode) ==> !PackMessage(vd, k, decode).PositionVector?
  }

  /** The identity a completed loop ends with: that of the last Basic ID pack,
      or the starting one when there is none. */
  predicate RidIsLast(vd: seq<uint8>, i: nat, count: nat, decode: PackDecoder, start: string, rid: string) {
    || (NoBaseFrom(vd, i, count, decode) && rid == start)
    || exists j | i <= j < count :: LastBaseAt(vd, i, count, j, decode) && rid == PackMessage(vd, j, decode).base.uasId
  }

  /** The coordinates a completed loop ends with: those of the last Location
      pack, or the starting ones when there is none. */
  predicate CoordinatesAreLast(vd: seq<uint8>, i: nat, count: nat, decode: PackDecoder, start: UploadData, v: UploadData) {
    || (NoPositionFrom(vd, i, count, decode) && v.latitude == start.latitude && v.longitude == start.longitude)
    || exists j | i <= j < count :: LastPositionAt(vd, i, count, j, decode)
         && v.latitude == PackMessage(vd, j, decode).positionVector.latitude
         && v.longitude == PackMessage(vd, j, decode).positionVector.longitude
  }

  /** A completed loop holds the identity of the last Basic ID pack and the
      coordinates of the last Location pack; System packs leave no trace. */
  lemma {:induction false} FoldKeepsLast(vd: seq<uint8>, count: nat, i: nat, u: UploadData, decode: PackDecoder)
    requires i <= count && Fold(vd, count, i, u, decode).Returned?
    ensures RidIsLast(vd, i, count, decode, u.rid, Fold(vd, count, i, u, decode).value.rid)
    ensures CoordinatesAreLast(vd, i, count, decode, u, Fold(vd, count, i, u, decode).value)
    decreases count - i
  {
    if i < count {
      assert PackDecodes(vd, i, decode);
      var msg := PackMessage(vd, i, decode);
      var u' := Absorb(u, msg);
      FoldKeepsLast(vd, count, i + 1, u', decode);
      var v := Fold(vd, count, i, u, decode).value;
      assert v == Fold(vd, count, i + 1, u', decode).value;
      if NoBaseFrom(vd, i + 1, count, decode) && v.rid == u'.rid {
        if msg.Base? {
          assert LastBaseAt(vd, i, count, i, decode);
        } else {
          assert NoBaseFrom(vd, i, count, decode);
        }
      } else {
        var j: nat :| LastBaseAt(vd, i + 1, count, j, decode) && v.rid == PackMessage(vd, j, decode).base.uasId;
        assert LastBaseAt(vd, i + 1, count, j, decode);
        assert LastBaseAt(vd, i, count, j, decode);
      }
      if NoPositionFrom(vd, i + 1, count, decode) && v.latitude == u'.latitude && v.longitude == u'.longitude {
        if msg.PositionVector? {
          assert LastPositionAt(vd, i, count, i, decode);
        } else {
          assert NoPositionFrom(vd, i, count, decode);
        }
      } else {
        var j: nat :| LastPositionAt(vd, i + 1, count, j, decode)
          && v.latitude == PackMessage(vd, j, decode).positionVector.latitude
          && v.longitude == PackMessage(vd, j, decode).positionVector.longitude;
        assert LastPositionAt(vd, i + 1, count, j, decode);
        assert LastPositionAt(vd, i, count, j, decode);
      }
    }
  }

  /** The loop reads the vendor data only from byte 4 on. */
  lemma {:induction false} FoldReadsPacks(a: seq<uint8>, b: seq<uint8>, count: nat, i: nat, u: UploadData, decode: PackDecoder)
    requires i <= count && PACKS_START <= |a| == |b| && a[PACKS_START..] == b[PACKS_START..]
    ensures Fold(a, count, i, u, decode) == Fold(b, count, i, u, decode)
    decreases count - i
  {
    if i < count && PACK_SIZE * i + PACKS_START + PACK_SIZE <= |a| {
      assert Pack(a, i) == Pack(b, i) by {
        forall k | 0 <= k < PACK_SIZE ensures Pack(a, i)[k] == Pack(b, i)[k] {
          var at := PACK_SIZE * i + k;
          assert Pack(a, i)[k] == a[PACKS_START + at] == a[PACKS_START..][at];
          assert Pack(b, i)[k] == b[PACKS_START + at] == b[PACKS_START..][at];
        }
      }
      match decode(Pack(a, i))
      case Err(_) =>
      case Ok(msg) => FoldReadsPacks(a, b, count, i + 1, Absorb(u, msg), decode);
    }
  }

  /** An eleventh declared pack is never reached: with more than 10 packs
      declared, and all of the first 10 present and decodable, the loop
      aborts on the `u8` overflow of pack 10's range. */
  lemma {:induction false} OverflowAtPackTen(vd: seq<uint8>, count: nat, i: nat, u: UploadData, decode: PackDecoder)
    requires i <= 10 < count && forall j | i <= j < 10 :: PackDecodes(vd, j, decode)
    ensures Fold(vd, count, i, u, decode) == Panicked(ArithmeticOverflow)
    decreases 10 - i
  {
    if i < 10 {
      assert PackDecodes(vd, i, decode);
      OverflowAtPackTen(vd, count, i + 1, Absorb(u, PackMessage(vd, i, decode)), decode);
    }
  }

  /** Of the four header bytes of the vendor data only the pack count, byte
      3, matters: the declared pack size, byte 2, is never used, and nor are
      bytes 0 and 1. */
  lemma HeaderBytesIgnored(vd: seq<uint8>, k: nat, x: uint8)
    requires 4 <= |vd| && k < 3
    ensures CollectPacks(vd[k := x]) == CollectPacks(vd)
  {
    var w := vd[k := x];
    assert w[PACKS_START..] == vd[PACKS_START..];
    FoldReadsPacks(w, vd, vd[3], 0, EMPTY_UPLOAD, MessageDispatch.FromBytes);
  }

  /** The vendor data yields a record exactly when it has its four header
      bytes, at most 10 packs are declared, they all fit and all decode; the
      record then holds the last Basic ID's identity (or "") and the last
      Location's coordinates (or 0, 0). */
  lemma CollectPacksOutcome(vd: seq<uint8>)
    ensures CollectPacks(vd).Returned? <==>
      && |vd| >= 4
      && (vd[3] == 0 || (vd[3] <= 10 && PACK_SIZE * vd[3] + PACKS_START <= |vd|))
      && (forall j | 0 <= j < vd[3] :: PackDecodes(vd, j, MessageDispatch.FromBytes))
    ensures CollectPacks(vd).Returned? ==>
      && RidIsLast(vd, 0, vd[3], MessageDispatch.FromBytes, "", CollectPacks(vd).value.rid)
      && CoordinatesAreLast(vd, 0, vd[3], MessageDispatch.FromBytes, EMPTY_UPLOAD, CollectPacks(vd).value)
  {
    if |vd| >= 4 {
      FoldCompletes(vd, vd[3], 0, EMPTY_UPLOAD, MessageDispatch.FromBytes);
      if CollectPacks(vd).Returned? {
        FoldKeepsLast(vd, vd[3], 0, EMPTY_UPLOAD, MessageDispatch.FromBytes);
      }
    }
  }

  /** Only the first vendor element is examined, and it is the Remote ID
      element exactly when its element ID is 221 and its OUI type 13. */
  lemma FirstElementOnly(vs: seq<VendorElement>)
    requires |vs| > 0
    ensures BeaconOutcome(vs) == BeaconOutcome([vs[0]])
    ensures BeaconOutcome(vs) == Returned(NotRemoteId) <==>
      !(vs[0].elementId == 221 && vs[0].ouiType == 13)
    ensures vs[0].elementId == 221 && vs[0].ouiType == 13 ==>
      (BeaconOutcome(vs).Returned? <==> CollectPacks(vs[0].data).Returned?)
  {
  }

  // ---------------------------------------------------------------------
  // process_packet.

  const MIN_PACKET_LENGTH: nat := 100

  /** What `process_packet` does: nothing (`None`) for a packet shorter than
      100 bytes, otherwise the radiotap walk and then the management frame
      after the header. */
  function Processed(packet: seq<uint8>, parseFrame: seq<uint8> -> Option<Frame>): (r: Outcome<Option<MgtOutcome>>)
    ensures r == Returned(None) <==> |packet| < MIN_PACKET_LENGTH
    ensures r.Returned? && r.value.Some? ==> Radiotap(packet).Returned?
  {
    if |packet| < MIN_PACKET_LENGTH then Returned(None)
    else match Radiotap(packet)
      case Panicked(p) => Panicked(p)
      case Returned((_, frame)) =>
        match Mgt(frame, parseFrame)
        case Panicked(p) => Panicked(p)
        case Returned(o) => Returned(Some(o))
  }

  /** `process_packet`. */
  method ProcessPacket(packet: seq<uint8>, parseFrame: seq<uint8> -> Option<Frame>) returns (r: Outcome<Option<MgtOutcome>>)
    ensures r == Processed(packet, parseFrame)
  {
    if |packet| < MIN_PACKET_LENGTH {
      return Returned(None);
    }
    var radiotap := ParseRadiotap(packet);
    if radiotap.Panicked? {
      return Panicked(radiotap.panic);
    }
    var remaining := radiotap.value.1;
    var mgt := ParseMgt(remaining, parseFrame);
    if mgt.Panicked? {
      return Panicked(mgt.panic);
    }
    r := Returned(Some(mgt.value));
  }

  /** A packet under 100 bytes is dropped before anything is read; once the
      radiotap walk returns, which it does whenever the packet holds two bytes
      past the header, the frame parser sees exactly the bytes after the
      header. */
  lemma ProcessedGate(packet: seq<uint8>, parseFrame: seq<uint8> -> Option<Frame>)
    ensures |packet| < 100 <==> Processed(packet, parseFrame) == Returned(None)
    ensures |packet| >= 100 && Radiotap(packet).Returned? ==>
      match Mgt(packet[packet[2]..], parseFrame)
      case Panicked(p) => Processed(packet, parseFrame) == Panicked(p)
      case Returned(o) => Processed(packet, parseFrame) == Returned(Some(o))
    ensures |packet| >= 100 && packet[2] + 2 <= |packet| ==>
      match Mgt(packet[packet[2]..], parseFrame)
      case Panicked(p) => Processed(packet, parseFrame) == Panicked(p)
      case Returned(o) => Processed(packet, parseFrame) == Returned(Some(o))
  {
    if |packet| >= 100 && packet[2] + 2 <= |packet| {
      RadiotapProperties(packet);
    }
  }

  // ---------------------------------------------------------------------
  // create_special_message.

  /** `create_special_message`: reads `data[0]` unchecked, calls the Basic ID
      decoder as written (so its 23-byte panic is reachable here), decodes
      Location, and reports every other type as `UnknownMessageType(0)`. */
  function CreateSpecialMessage(data: seq<uint8>): (r: Outcome<Result<MessageDispatch.AnyMessage>>)
    ensures r.Returned? && r.value.Ok? ==>
      |data| > 0 && MessageDispatch.TypeNibble(data[0]) <= 1
      && (r.value.value.Base? <==> MessageDispatch.TypeNibble(data[0]) == 0)
  {
    if |data| == 0 then Panicked(IndexOutOfRange(0, 0))
    else
      var messageType := MessageDispatch.TypeNibble(data[0]);
      if messageType == BaseMessageDecoder.MESSAGE_TYPE then
        match BaseMessageDecoder.FromBytesAsWritten(data[1..])
        case Panicked(p) => Panicked(p)
        case Returned(Ok(m)) => Returned(Ok(MessageDispatch.Base(m)))
        case Returned(Err(e)) => Returned(Err(e))
      else if messageType == PositionVectorDecoder.MESSAGE_TYPE then
        match PositionVectorDecoder.FromBytes(data[1..])
        case Ok(m) => Returned(Ok(MessageDispatch.PositionVector(m)))
        case Err(e) => Returned(Err(e))
      else Returned(Err(UnknownMessageType(0)))
  }

  /** Against the dispatcher: it panics on empty input, and on a Basic ID of
      exactly 24 bytes whose identity bytes are well-formed UTF-8 (the
      decoder as written sees 23 bytes); otherwise types 0 and 1 agree with
      the dispatcher, and every other type, System included, fails with
      `UnknownMessageType(0)`, whose code differs from the dispatcher's. */
  lemma CreateSpecialAgainstDispatch(data: seq<uint8>)
    ensures CreateSpecialMessage(data).Panicked? <==>
      |data| == 0
      || (MessageDispatch.TypeNibble(data[0]) == 0 && |data| == 24 && Utf8.WellFormed(data[2..22]))
    ensures |data| == 0 ==> CreateSpecialMessage(data) == Panicked(IndexOutOfRange(0, 0))
    ensures |data| == 24 && MessageDispatch.TypeNibble(data[0]) == 0 && Utf8.WellFormed(data[2..22]) ==>
      CreateSpecialMessage(data) == Panicked(IndexOutOfRange(24, 23))
    ensures |data| > 0 && MessageDispatch.TypeNibble(data[0]) <= 1 && CreateSpecialMessage(data).Returned? ==>
      CreateSpecialMessage(data) == Returned(MessageDispatch.FromBytes(data))
    ensures |data| > 0 && MessageDispatch.TypeNibble(data[0]) > 1 ==>
      && CreateSpecialMessage(data) == Returned(Err(UnknownMessageType(0)))
      && MessageDispatch.FromBytes(data) != Err(UnknownMessageType(0))
  {
    if |data| > 0 {
      var content := data[1..];
      if MessageDispatch.TypeNibble(data[0]) == 0 {
        BaseMessageDecoder.CorrectedAgreesElsewhere(content);
        if |data| == 24 {
          assert content[1..21] == data[2..22];
          if Utf8.WellFormed(data[2..22]) {
            BaseMessageDecoder.AsWrittenPanicsAt23(content);
          } else {
            Utf8.FromUtf8IsWellFormed(content[1..21]);
          }
        }
      }
      if MessageDispatch.TypeNibble(data[0]) > 1 {
        MessageDispatch.DispatchTable(data);
        if MessageDispatch.TypeNibble(data[0]) == 4 {
          assert MessageDispatch.FromBytes(data).Err? ==>
            MessageDispatch.FromBytes(data).error == SystemMessageDecoder.FixedLayout(data[1..]).error;
        }
      }
    }
  }
}
