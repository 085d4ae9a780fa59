/**
 * The telemetry decoders of `readers/StreamToTCP.py` and the dispatch rule of
 * its main loop.
 *
 * Each decoder cuts the line just after its marker, deletes decoration,
 * collapses whitespace, checks the token count, rejects the whole record when
 * a selected token is not a number, and packs a tagged frame:
 *   RAV      (Raven altimeter)      -> tag 14, format "idiiiiiiiidiiiiii"
 *   RX_NOMTK (tracker link health)  -> tag 13, format "idiid"
 *   GPS_STAT (GPS tracker)          -> tag 12, format "ididdiiiiiiii"
 * A line is the text `str(raw_bytes)` that the loop builds from a serial read.
 */
module StreamToTcp {
  import opened Text
  import opened Numbers
  import opened Frames

  const GpsId := "FthrWt04072"

  const RavFormat := "idiiiiiiiidiiiiii"
  const TrkFormat := "idiid"
  const GpsFormat := "ididdiiiiiiii"

  /** `any(is_garbled(p) for p in parts)`. */
  predicate AnyGarbled(parts: seq<string>) {
    exists k {:trigger IsGarbled(parts[k])} | 0 <= k < |parts| :: IsGarbled(parts[k])
  }

  /** A frame whose tag is one of the three known tags and whose fields follow that tag's layout. */
  predicate WellLaid(f: Frame) {
    (f.tag == 12 && Conforms(Values(f), GpsFormat))
    || (f.tag == 13 && Conforms(Values(f), TrkFormat))
    || (f.tag == 14 && Conforms(Values(f), RavFormat))
  }

  // ===========================================================================
  // Raven altimeter: pack_RAV
  // ===========================================================================

  /** The substrings `pack_RAV` deletes, in order (after `strip()`). */
  const RavJunk: seq<string> := ["#", "\"", "\\n'", ",", ":", "rssi ", "length ", "SNR "]

  function CleanRav(s: string): string {
    JunkPatterns();
    RemoveAll(Strip(s), RavJunk)
  }

  /** The 20 tokens left after `parts.pop(17)`. */
  function RavKept(parts: seq<string>): (kept: seq<string>)
    requires |parts| == 21
    ensures |kept| == 20
    ensures forall k | 0 <= k < 17 :: kept[k] == parts[k]
    ensures forall k | 17 <= k < 20 :: kept[k] == parts[k + 1]
  {
    parts[..17] + parts[18..]
  }

  /**
   * Everything `pack_RAV` does after tokenizing: 21 tokens or reject; drop
   * token 17; reject if any of the other 20 is not a number; then convert and pack.
   */
  function PackRav(parts: seq<string>): (r: Outcome)
    ensures r.Rejected? <==> |parts| != 21 || AnyGarbled(RavKept(parts))
    ensures r.Packed? ==> r.frame.tag == 14 && Conforms(Values(r.frame), RavFormat)
  {
    if |parts| != 21 then Rejected
    else
      var kept := RavKept(parts);
      if AnyGarbled(kept) then Rejected
      else
        assert !IsGarbled(kept[9]);
        RavFrame(kept[0], kept[1..9], kept[9], kept[10..18], kept[19])
  }

  /**
   * The conversions of `pack_RAV` on validated tokens: the time token, the
   * eight hg/pg/un tokens, the battery token (divided by 1000), the eight
   * tokens gy_1..gy_3 (parsed with `int()` but not sent), ang_1, ang_2, vel,
   * agl, rssi, and the snr token. The length token is not converted.
   */
  function RavFrame(timeTok: string, hgPgUn: seq<string>, battTok: string, gyToRssi: seq<string>, snrTok: string): (r: Outcome)
    requires |hgPgUn| == 8 && |gyToRssi| == 8 && IsDecimal(battTok)
    ensures !r.Rejected?
    ensures r.Packed? ==> r.frame.tag == 14 && Conforms(Values(r.frame), RavFormat)
  {
    var time := TimeOf(timeTok);
    var a := ParseInts(hgPgUn);
    var b := ParseInts(gyToRssi);
    var snr := ParseInts([snrTok]);
    if time.None? || a.None? || b.None? || snr.None? then Fault
    else RavPacket(time.value, a.value, DecimalValue(battTok) / 1000.0, b.value[3..], snr.value[0])
  }

  /** `struct.pack("idiiiiiiiidiiiiii", 14, time_s, hg_1, .., un_2, batt, ang_1, ang_2, vel, agl, rssi, snr)`. */
  function RavPacket(time: real, hgPgUn: seq<int>, batt: real, angVelAglRssi: seq<int>, snr: int): (r: Outcome)
    requires |hgPgUn| == 8 && |angVelAglRssi| == 5
    ensures !r.Rejected?
    ensures r.Packed? ==> r.frame.tag == 14 && Conforms(Values(r.frame), RavFormat)
    ensures r.Packed? ==> r.frame.fields == [Real(time)] + IntFields(hgPgUn) + [Real(batt)] + IntFields(angVelAglRssi + [snr])
  {
    var fields := [Real(time)] + IntFields(hgPgUn) + [Real(batt)] + IntFields(angVelAglRssi + [snr]);
    assert Conforms([Int(14)] + fields, RavFormat) by {
      assert RavFormat == "i" + ("d" + "iiiiiiii" + "d" + "iiiiii");
      IntFieldsConform(hgPgUn, "iiiiiiii");
      IntFieldsConform(angVelAglRssi + [snr], "iiiiii");
      ConformsConcat([Real(time)], "d", IntFields(hgPgUn), "iiiiiiii");
      ConformsConcat([Real(time)] + IntFields(hgPgUn), "d" + "iiiiiiii", [Real(batt)], "d");
      ConformsConcat([Real(time)] + IntFields(hgPgUn) + [Real(batt)], "d" + "iiiiiiii" + "d",
                     IntFields(angVelAglRssi + [snr]), "iiiiii");
      ConformsConcat([Int(14)], "i", fields, "d" + "iiiiiiii" + "d" + "iiiiii");
    }
    Pack(RavFormat, 14, fields)
  }

  /** `pack_RAV(data)`; the caller guarantees `'RAV' in data`, as `data.index` demands. */
  function DecodeRav(line: string): (r: Outcome)
    requires Contains(line, "RAV")
    ensures r.Packed? ==> r.frame.tag == 14 && WellLaid(r.frame)
  {
    var i := FirstIndex(line, "RAV");
    PackRav(Tokens(CleanRav(line[i + 3..])))
  }

  // ===========================================================================
  // Tracker link health: pack_FW_TRK
  // ===========================================================================

  /** The substrings `pack_FW_TRK` deletes before it deletes every ASCII letter. */
  const TrkJunk: seq<string> := ["\\r\\n'", ":", "_", GpsId]

  function CleanTrk(s: string): string {
    JunkPatterns();
    DropRange(DropRange(RemoveAll(Strip(s), TrkJunk), 'a', 'z'), 'A', 'Z')
  }

  /**
   * Everything `pack_FW_TRK` does after tokenizing: at least 17 tokens or
   * reject; keep `parts[4:16]`; reject if any of those 12 is not a number;
   * then convert and pack.
   */
  function PackTrk(parts: seq<string>): (r: Outcome)
    ensures r.Rejected? <==> |parts| < 17 || AnyGarbled(parts[4..16])
    ensures r.Packed? ==> r.frame.tag == 13 && Conforms(Values(r.frame), TrkFormat)
  {
    if |parts| < 17 then Rejected
    else
      var sel := parts[4..16];
      if AnyGarbled(sel) then Rejected
      else
        assert !IsGarbled(sel[11]);
        TrkFrame(sel[0], sel[3], sel[7], sel[11])
  }

  /** The conversions of `pack_FW_TRK` on validated tokens: time, rssi_1, rssi_2, battery / 1000. */
  function TrkFrame(timeTok: string, rssi1Tok: string, rssi2Tok: string, batTok: string): (r: Outcome)
    requires IsDecimal(batTok)
    ensures !r.Rejected?
    ensures r.Packed? ==> r.frame.tag == 13 && Conforms(Values(r.frame), TrkFormat)
  {
    var time := TimeOf(timeTok);
    var rssi := ParseInts([rssi1Tok, rssi2Tok]);
    if time.None? || rssi.None? then Fault
    else TrkPacket(time.value, rssi.value[0], rssi.value[1], DecimalValue(batTok) / 1000.0)
  }

  /** `struct.pack("idiid", 13, time_s, rssi_1, rssi_2, bat)`. */
  function TrkPacket(time: real, rssi1: int, rssi2: int, bat: real): (r: Outcome)
    ensures !r.Rejected?
    ensures r.Packed? ==> r.frame.tag == 13 && Conforms(Values(r.frame), TrkFormat)
    ensures r.Packed? ==> r.frame.fields == [Real(time), Int(rssi1), Int(rssi2), Real(bat)]
  {
    Pack(TrkFormat, 13, [Real(time), Int(rssi1), Int(rssi2), Real(bat)])
  }

  /** `pack_FW_TRK(data)`; the caller guarantees `'RX_NOMTK' in data`. */
  function DecodeTrk(line: string): (r: Outcome)
    requires Contains(line, "RX_NOMTK")
    ensures r.Packed? ==> r.frame.tag == 13 && WellLaid(r.frame)
  {
    var i := FirstIndex(line, "RX_NOMTK");
    PackTrk(Tokens(CleanTrk(line[i + 8..])))
  }

  // ===========================================================================
  // GPS tracker: pack_FW_GPS
  // ===========================================================================

  /** The substrings `pack_FW_GPS` deletes, in order (after `strip()`). */
  const GpsJunk: seq<string> :=
    ["#", ":", "CRC_OK", "\\r\\n'", "TRK", "Alt", "lt", "ln", "Vel", "Fix", GpsId, "CRC"]

  function CleanGps(s: string): string {
    JunkPatterns();
    RemoveAll(Strip(s), GpsJunk)
  }

  /**
   * Everything `pack_FW_GPS` does after tokenizing: exactly 22 tokens or
   * reject; keep `parts[4:16]`; reject if any of those 12 is not a number;
   * then convert and pack.
   */
  function PackGps(parts: seq<string>): (r: Outcome)
    ensures r.Rejected? <==> |parts| != 22 || AnyGarbled(parts[4..16])
    ensures r.Packed? ==> r.frame.tag == 12 && Conforms(Values(r.frame), GpsFormat)
  {
    if |parts| != 22 then Rejected
    else
      var sel := parts[4..16];
      if AnyGarbled(sel) then Rejected
      else
        assert !IsGarbled(sel[2]) && !IsGarbled(sel[3]);
        GpsFrame(sel[0], sel[1], sel[2], sel[3], sel[4..12])
  }

  /**
   * The conversions of `pack_FW_GPS` on validated tokens: time, altitude,
   * lat, lon, then hv, hdir, vv, fix, satTotal, sat24, sat32, sat40.
   */
  function GpsFrame(timeTok: string, altTok: string, latTok: string, lonTok: string, restToks: seq<string>): (r: Outcome)
    requires IsDecimal(latTok) && IsDecimal(lonTok) && |restToks| == 8
    ensures !r.Rejected?
    ensures r.Packed? ==> r.frame.tag == 12 && Conforms(Values(r.frame), GpsFormat)
  {
    var time := TimeOf(timeTok);
    var alt := ParseInts([altTok]);
    var rest := ParseInts(restToks);
    if time.None? || alt.None? || rest.None? then Fault
    else GpsPacket(time.value, alt.value[0], DecimalValue(latTok), DecimalValue(lonTok), rest.value)
  }

  /** `struct.pack("ididdiiiiiiii", 12, time_s, altitude_ft, lat, lon, hv, hdir, vv, fix, satTotal, sat24, sat32, sat40)`. */
  function GpsPacket(time: real, alt: int, lat: real, lon: real, rest: seq<int>): (r: Outcome)
    requires |rest| == 8
    ensures !r.Rejected?
    ensures r.Packed? ==> r.frame.tag == 12 && Conforms(Values(r.frame), GpsFormat)
    ensures r.Packed? ==> r.frame.fields == [Real(time), Int(alt), Real(lat), Real(lon)] + IntFields(rest)
  {
    var head := [Real(time), Int(alt), Real(lat), Real(lon)];
    assert Conforms([Int(12)] + (head + IntFields(rest)), GpsFormat) by {
      assert GpsFormat == "i" + ("didd" + "iiiiiiii");
      assert Conforms(head, "didd");
      IntFieldsConform(rest, "iiiiiiii");
      ConformsConcat(head, "didd", IntFields(rest), "iiiiiiii");
      ConformsConcat([Int(12)], "i", head + IntFields(rest), "didd" + "iiiiiiii");
    }
    Pack(GpsFormat, 12, [Real(time), Int(alt), Real(lat), Real(lon)] + IntFields(rest))
  }

  /** `pack_FW_GPS(data)`; the caller guarantees `'GPS_STAT' in data`. */
  function DecodeGps(line: string): (r: Outcome)
    requires Contains(line, "GPS_STAT")
    ensures r.Packed? ==> r.frame.tag == 12 && WellLaid(r.frame)
  {
    var i := FirstIndex(line, "GPS_STAT");
    PackGps(Tokens(CleanGps(line[i + 8..])))
  }

  // ===========================================================================
  // Properties of the Raven decoder
  // ===========================================================================

  /** The original token positions that `pack_RAV` reads with `int()`. */
  predicate IsRavIntSlot(k: int) {
    (1 <= k <= 16 && k != 9) || k == 18 || k == 20
  }

  /**
   * Field positions of a type-14 frame: time, the eight hg/pg/un values,
   * battery, then ang_1, ang_2, vel, agl, rssi and snr.
   */
  lemma RavLayout(time: real, hgPgUn: seq<int>, batt: real, tail: seq<int>)
    requires |hgPgUn| == 8 && |tail| == 6
    ensures var fs := [Real(time)] + IntFields(hgPgUn) + [Real(batt)] + IntFields(tail);
      && |fs| == 16 && fs[0] == Real(time) && fs[9] == Real(batt)
      && (forall k | 0 <= k < 8 :: fs[k + 1] == Int(hgPgUn[k]))
      && (forall k | 0 <= k < 6 :: fs[k + 10] == Int(tail[k]))
  {
    var a := [Real(time)] + IntFields(hgPgUn);
    var fs := a + [Real(batt)] + IntFields(tail);
    forall k | 0 <= k < 8 ensures fs[k + 1] == Int(hgPgUn[k]) {
      assert fs[k + 1] == a[k + 1];
    }
    forall k | 0 <= k < 6 ensures fs[k + 10] == Int(tail[k]) {
      assert fs[k + 10] == IntFields(tail)[k];
    }
  }

  /** A packed type-14 frame comes from successful conversions of every token. */
  lemma RavFrameUnfold(timeTok: string, hgPgUn: seq<string>, battTok: string, gyToRssi: seq<string>, snrTok: string)
    requires |hgPgUn| == 8 && |gyToRssi| == 8 && IsDecimal(battTok)
    requires RavFrame(timeTok, hgPgUn, battTok, gyToRssi, snrTok).Packed?
    ensures TimeOf(timeTok).Some? && ParseInts(hgPgUn).Some? && ParseInts(gyToRssi).Some? && ParseInts([snrTok]).Some?
    ensures RavFrame(timeTok, hgPgUn, battTok, gyToRssi, snrTok)
         == RavPacket(TimeOf(timeTok).value, ParseInts(hgPgUn).value, DecimalValue(battTok) / 1000.0,
                      ParseInts(gyToRssi).value[3..], ParseInts([snrTok]).value[0])
  {
  }

  lemma RavFrameFields(timeTok: string, hgPgUn: seq<string>, battTok: string, gyToRssi: seq<string>, snrTok: string)
    requires |hgPgUn| == 8 && |gyToRssi| == 8 && IsDecimal(battTok)
    requires RavFrame(timeTok, hgPgUn, battTok, gyToRssi, snrTok).Packed?
    ensures var f := RavFrame(timeTok, hgPgUn, battTok, gyToRssi, snrTok).frame;
      && |f.fields| == 16
      && TimeOf(timeTok).Some? && f.fields[0] == Real(TimeOf(timeTok).value)
      && (forall k | 0 <= k < 8 :: IsInteger(hgPgUn[k]) && f.fields[k + 1] == Int(IntValue(hgPgUn[k])))
      && f.fields[9] == Real(DecimalValue(battTok) / 1000.0)
      && (forall k | 3 <= k < 8 :: IsInteger(gyToRssi[k]) && f.fields[k + 7] == Int(IntValue(gyToRssi[k])))
      && IsInteger(snrTok) && f.fields[15] == Int(IntValue(snrTok))
  {
    RavFrameUnfold(timeTok, hgPgUn, battTok, gyToRssi, snrTok);
    var a, b := ParseInts(hgPgUn).value, ParseInts(gyToRssi).value;
    var tail := b[3..] + [ParseInts([snrTok]).value[0]];
    RavLayout(TimeOf(timeTok).value, a, DecimalValue(battTok) / 1000.0, tail);
    var f := RavFrame(timeTok, hgPgUn, battTok, gyToRssi, snrTok).frame;
    forall k | 3 <= k < 8 ensures IsInteger(gyToRssi[k]) && f.fields[k + 7] == Int(IntValue(gyToRssi[k])) {
      assert tail[k - 3] == b[k];
    }
  }

  /** A 21-token record with no garbled kept token goes on to the conversions, token 17 dropped. */
  lemma RavUnfold(parts: seq<string>)
    requires |parts| == 21 && !AnyGarbled(RavKept(parts))
    ensures IsDecimal(parts[9])
    ensures PackRav(parts) == RavFrame(parts[0], parts[1..9], parts[9], parts[10..17] + [parts[18]], parts[20])
  {
    var kept := RavKept(parts);
    assert !IsGarbled(kept[9]);
    assert kept[1..9] == parts[1..9] && kept[10..18] == parts[10..17] + [parts[18]];
  }

  /**
   * Where the first ten fields of a type-14 frame come from, in original
   * token positions: time from token 0, hg_1..un_2 from 1..8, battery from
   * token 9 divided by 1000.
   */
  lemma RavFieldMap(parts: seq<string>)
    requires PackRav(parts).Packed?
    ensures |parts| == 21
    ensures var f := PackRav(parts).frame;
      && f.tag == 14 && |Values(f)| == 17
      && TimeOf(parts[0]).Some? && f.fields[0] == Real(TimeOf(parts[0]).value)
      && (forall k | 1 <= k <= 8 :: IsInteger(parts[k]) && f.fields[k] == Int(IntValue(parts[k])))
      && IsDecimal(parts[9]) && f.fields[9] == Real(DecimalValue(parts[9]) / 1000.0)
  {
    RavUnfold(parts);
    RavHeadTokens(parts);
    RavFrameFields(parts[0], parts[1..9], parts[9], parts[10..17] + [parts[18]], parts[20]);
  }

  lemma RavHeadTokens(parts: seq<string>)
    requires |parts| == 21
    ensures forall k | 1 <= k <= 8 :: parts[1..9][k - 1] == parts[k]
  {
  }

  /**
   * Where the last six fields of a type-14 frame come from: ang_1, ang_2,
   * vel and agl from tokens 13..16 (the gyro tokens 10..12 are converted
   * but not sent), rssi from 18 and snr from 20.
   */
  lemma RavTailMap(parts: seq<string>)
    requires PackRav(parts).Packed?
    ensures |parts| == 21
    ensures var f := PackRav(parts).frame;
      && |f.fields| == 16
      && (forall k | 13 <= k <= 16 :: IsInteger(parts[k]) && f.fields[k - 3] == Int(IntValue(parts[k])))
      && IsInteger(parts[18]) && f.fields[14] == Int(IntValue(parts[18]))
      && IsInteger(parts[20]) && f.fields[15] == Int(IntValue(parts[20]))
  {
    RavUnfold(parts);
    RavTailTokens(parts);
    RavFrameTail(parts[0], parts[1..9], parts[9], parts[10..17], parts[18], parts[20]);
  }

  lemma RavTailTokens(parts: seq<string>)
    requires |parts| == 21
    ensures forall k | 13 <= k <= 16 :: parts[10..17][k - 10] == parts[k]
  {
  }

  lemma RavFrameTail(timeTok: string, hgPgUn: seq<string>, battTok: string, gy: seq<string>, rssiTok: string, snrTok: string)
    requires |hgPgUn| == 8 && |gy| == 7 && IsDecimal(battTok)
    requires RavFrame(timeTok, hgPgUn, battTok, gy + [rssiTok], snrTok).Packed?
    ensures var f := RavFrame(timeTok, hgPgUn, battTok, gy + [rssiTok], snrTok).frame;
      && |f.fields| == 16
      && (forall k | 3 <= k < 7 :: IsInteger(gy[k]) && f.fields[k + 7] == Int(IntValue(gy[k])))
      && IsInteger(rssiTok) && f.fields[14] == Int(IntValue(rssiTok))
      && IsInteger(snrTok) && f.fields[15] == Int(IntValue(snrTok))
  {
    var gyToRssi := gy + [rssiTok];
    RavFrameFields(timeTok, hgPgUn, battTok, gyToRssi, snrTok);
    assert forall k | 3 <= k < 7 :: gyToRssi[k] == gy[k];
    assert gyToRssi[7] == rssiTok;
  }

  /**
   * `pack_RAV` never looks at token 17, and reads token 19 (the packet length)
   * only to check that it is a number: changing either, short of making token
   * 19 garbled, changes nothing.
   */
  lemma RavIgnoresUnusedTokens(p: seq<string>, q: seq<string>)
    requires |p| == 21 && |q| == 21
    requires forall k | 0 <= k < 21 && k != 17 && k != 19 :: p[k] == q[k]
    requires IsGarbled(p[19]) == IsGarbled(q[19])
    ensures PackRav(p) == PackRav(q)
  {
    var kp, kq := RavKept(p), RavKept(q);
    assert forall k | 0 <= k < 20 :: IsGarbled(kp[k]) == IsGarbled(kq[k]) by {
      forall k | 0 <= k < 20 ensures IsGarbled(kp[k]) == IsGarbled(kq[k]) {
        if k != 18 { assert kp[k] == kq[k]; }
      }
    }
    assert AnyGarbled(kp) == AnyGarbled(kq);
    assert kp[1..9] == kq[1..9] && kp[10..18] == kq[10..18];
  }

  /**
   * The gyro tokens gy_1..gy_3 are parsed with `int()` and never sent: once
   * they are integers, their values change nothing, 32-bit or not.
   */
  lemma RavGyroUnsent(p: seq<string>, q: seq<string>)
    requires |p| == 21 && |q| == 21
    requires forall k | 0 <= k < 21 && !(10 <= k <= 12) :: p[k] == q[k]
    requires forall k | 10 <= k <= 12 :: IsInteger(p[k]) && IsInteger(q[k])
    ensures PackRav(p) == PackRav(q)
  {
    RavGyroGarble(p, q);
    if !AnyGarbled(RavKept(p)) {
      RavUnfold(p);
      RavUnfold(q);
      RavGyroSlots(p, q);
      RavFrameGyro(p[0], p[1..9], p[9], p[10..17] + [p[18]], q[10..17] + [q[18]], p[20]);
    }
  }

  lemma RavGyroSlots(p: seq<string>, q: seq<string>)
    requires |p| == 21 && |q| == 21
    requires forall k | 0 <= k < 21 && !(10 <= k <= 12) :: p[k] == q[k]
    requires forall k | 10 <= k <= 12 :: IsInteger(p[k]) && IsInteger(q[k])
    ensures var g, h := p[10..17] + [p[18]], q[10..17] + [q[18]];
      && |g| == 8 && |h| == 8
      && (forall k | 0 <= k < 3 :: IsInteger(g[k]) && IsInteger(h[k]))
      && (forall k | 3 <= k < 8 :: g[k] == h[k])
    ensures p[0] == q[0] && p[1..9] == q[1..9] && p[9] == q[9] && p[20] == q[20]
  {
    var g, h := p[10..17] + [p[18]], q[10..17] + [q[18]];
    assert forall k | 0 <= k < 3 :: g[k] == p[k + 10] && h[k] == q[k + 10];
    assert forall k | 3 <= k < 7 :: g[k] == p[k + 10] && h[k] == q[k + 10];
  }

  lemma RavGyroGarble(p: seq<string>, q: seq<string>)
    requires |p| == 21 && |q| == 21
    requires forall k | 0 <= k < 21 && !(10 <= k <= 12) :: p[k] == q[k]
    requires forall k | 10 <= k <= 12 :: IsInteger(p[k]) && IsInteger(q[k])
    ensures AnyGarbled(RavKept(p)) == AnyGarbled(RavKept(q))
  {
    var kp, kq := RavKept(p), RavKept(q);
    forall k | 0 <= k < 20 ensures IsGarbled(kp[k]) == IsGarbled(kq[k]) {
      if 10 <= k <= 12 {
        IntegerIsDecimal(kp[k]);
        IntegerIsDecimal(kq[k]);
      } else {
        assert kp[k] == kq[k];
      }
    }
  }

  /** The same for the conversions: the first three of `gyToRssi` matter only through `int()` accepting them. */
  lemma {:induction false} RavFrameGyro(timeTok: string, hgPgUn: seq<string>, battTok: string, g: seq<string>, h: seq<string>, snrTok: string)
    requires |hgPgUn| == 8 && |g| == 8 && |h| == 8 && IsDecimal(battTok)
    requires forall k | 0 <= k < 3 :: IsInteger(g[k]) && IsInteger(h[k])
    requires forall k | 3 <= k < 8 :: g[k] == h[k]
    ensures RavFrame(timeTok, hgPgUn, battTok, g, snrTok) == RavFrame(timeTok, hgPgUn, battTok, h, snrTok)
  {
    assert forall k | 0 <= k < 8 :: IsInteger(g[k]) == IsInteger(h[k]);
    if ParseInts(g).Some? {
      var a, b := ParseInts(g).value, ParseInts(h).value;
      assert a[3..] == b[3..] by {
        forall k | 0 <= k < 5 ensures a[3..][k] == b[3..][k] {
          assert g[k + 3] == h[k + 3];
        }
      }
    }
  }

  /**
   * A record that passed `is_garbled` still raises when a number with a '.'
   * sits where `int()` is applied.
   */
  lemma RavFaults(parts: seq<string>, j: nat)
    requires |parts| == 21 && !AnyGarbled(RavKept(parts))
    requires IsRavIntSlot(j) && '.' in parts[j]
    ensures PackRav(parts) == Fault
  {
    var kept := RavKept(parts);
    assert !IsGarbled(kept[9]);
    var i := if j < 17 then j else j - 1;
    assert kept[i] == parts[j];
    IntegerIsDecimal(parts[j]);
    if 1 <= i < 9 {
      assert kept[1..9][i - 1] == parts[j];
    } else if 10 <= i < 18 {
      assert kept[10..18][i - 10] == parts[j];
    } else {
      assert [kept[19]][0] == parts[j];
    }
  }

  /**
   * It also raises when `float()` refuses a slice of the time token: any
   * token of at most four characters, whose seconds slice is empty, but
   * also "1234." or "-.123" (`TimeSecondsDot`, `TimeHoursDot`).
   */
  lemma RavTimeFault(parts: seq<string>)
    requires |parts| == 21 && !AnyGarbled(RavKept(parts)) && TimeOf(parts[0]).None?
    ensures PackRav(parts) == Fault
  {
    RavUnfold(parts);
  }

  /** When every conversion succeeds, the frame is whatever `struct.pack` makes of the converted values. */
  lemma {:induction false} RavFrameConverted(timeTok: string, hgPgUn: seq<string>, battTok: string, gyToRssi: seq<string>, snrTok: string)
    requires |hgPgUn| == 8 && |gyToRssi| == 8 && IsDecimal(battTok) && TimeOf(timeTok).Some?
    requires forall k | 0 <= k < 8 :: IsInteger(hgPgUn[k]) && IsInteger(gyToRssi[k])
    requires IsInteger(snrTok)
    ensures RavFrame(timeTok, hgPgUn, battTok, gyToRssi, snrTok)
         == RavPacket(TimeOf(timeTok).value, ParseInts(hgPgUn).value, DecimalValue(battTok) / 1000.0,
                      ParseInts(gyToRssi).value[3..], ParseInts([snrTok]).value[0])
  {
  }

  /**
   * The third way: `struct.pack` raises for a type-14 frame as soon as one
   * of the integers it sends needs more than 32 bits. Field `m` counts from
   * the time; the gyro values `b[0..3]` are converted but not sent, so they
   * cannot cause it. With `RavUnfold` and `RavFrameConverted` this reaches
   * back to the record's tokens.
   */
  lemma {:induction false} RavPacketRange(time: real, hgPgUn: seq<int>, batt: real, angVelAglRssi: seq<int>, snr: int, m: nat)
    requires |hgPgUn| == 8 && |angVelAglRssi| == 5
    requires || (1 <= m <= 8 && !FitsInt32(hgPgUn[m - 1]))
             || (10 <= m <= 14 && !FitsInt32(angVelAglRssi[m - 10]))
             || (m == 15 && !FitsInt32(snr))
    ensures RavPacket(time, hgPgUn, batt, angVelAglRssi, snr) == Fault
  {
    var tail := angVelAglRssi + [snr];
    var fs := [Real(time)] + IntFields(hgPgUn) + [Real(batt)] + IntFields(tail);
    RavLayout(time, hgPgUn, batt, tail);
    assert !IntsFit(fs) by {
      if m <= 8 {
        assert fs[m] == Int(hgPgUn[m - 1]);
      } else {
        assert fs[m] == Int(tail[m - 10]);
      }
    }
    IntsFitTail(14, fs);
  }

  lemma RavFramePacked(timeTok: string, hgPgUn: seq<string>, battTok: string, gyToRssi: seq<string>, snrTok: string)
    requires |hgPgUn| == 8 && |gyToRssi| == 8 && IsDecimal(battTok)
    requires TimeOf(timeTok).Some?
    requires forall k | 0 <= k < 8 :: IsInteger(hgPgUn[k]) && FitsInt32(IntValue(hgPgUn[k]))
    requires forall k | 0 <= k < 8 :: IsInteger(gyToRssi[k])
    requires forall k | 3 <= k < 8 :: FitsInt32(IntValue(gyToRssi[k]))
    requires IsInteger(snrTok) && FitsInt32(IntValue(snrTok))
    ensures RavFrame(timeTok, hgPgUn, battTok, gyToRssi, snrTok).Packed?
  {
    var a := ParseInts(hgPgUn).value;
    var b := ParseInts(gyToRssi).value;
    var c := b[3..] + [ParseInts([snrTok]).value[0]];
    var time := [Real(TimeOf(timeTok).value)];
    var batt := [Real(DecimalValue(battTok) / 1000.0)];
    IntFieldsFit(a);
    assert forall k | 0 <= k < 6 :: FitsInt32(c[k]) by {
      forall k | 0 <= k < 6 ensures FitsInt32(c[k]) {
        if k < 5 { assert c[k] == b[k + 3]; }
      }
    }
    IntFieldsFit(c);
    IntsFitConcat(time, IntFields(a));
    IntsFitConcat(time + IntFields(a), batt);
    IntsFitConcat(time + IntFields(a) + batt, IntFields(c));
    IntsFitConcat([Int(14)], time + IntFields(a) + batt + IntFields(c));
  }

  /** The `int()` positions whose values `pack_RAV` sends: all but the gyro tokens 10..12. */
  predicate IsRavSentSlot(k: int) {
    IsRavIntSlot(k) && !(10 <= k <= 12)
  }

  /**
   * A record with a clock-shaped time token, integers at every `int()`
   * position, in 32-bit range where they are sent, and numbers at 9 and 19 is
   * packed, whatever token 17 holds and however large the gyro values are.
   */
  lemma RavAccepts(parts: seq<string>)
    requires |parts| == 21 && IsClockToken(parts[0])
    requires IsDecimal(parts[9]) && IsDecimal(parts[19])
    requires forall k | 0 <= k < 21 && IsRavIntSlot(k) :: IsInteger(parts[k])
    requires forall k | 0 <= k < 21 && IsRavSentSlot(k) :: FitsInt32(IntValue(parts[k]))
    ensures PackRav(parts).Packed?
  {
    var kept := RavKept(parts);
    ClockTime(parts[0]);
    RavKeptNumbers(parts);
    RavKeptSlices(parts);
    RavFramePacked(kept[0], kept[1..9], kept[9], kept[10..18], kept[19]);
  }

  lemma RavKeptNumbers(parts: seq<string>)
    requires |parts| == 21 && IsDecimal(parts[0]) && IsDecimal(parts[9]) && IsDecimal(parts[19])
    requires forall k | 0 <= k < 21 && IsRavIntSlot(k) :: IsInteger(parts[k])
    ensures !AnyGarbled(RavKept(parts))
  {
    var kept := RavKept(parts);
    forall i | 0 <= i < 20 ensures !IsGarbled(kept[i]) {
      if i != 0 && i != 9 && i != 18 {
        IntegerIsDecimal(kept[i]);
      }
    }
  }

  lemma RavKeptSlices(parts: seq<string>)
    requires |parts| == 21
    ensures var kept := RavKept(parts);
      && kept[0] == parts[0] && kept[9] == parts[9] && kept[19] == parts[20]
      && (forall k | 0 <= k < 8 :: kept[1..9][k] == parts[k + 1])
      && (forall k | 0 <= k < 8 :: kept[10..18][k] == parts[if k < 7 then k + 10 else 18])
  {
  }

  // ===========================================================================
  // Properties of the tracker-health decoder
  // ===========================================================================

  /** A record of at least 17 tokens with twelve numbers at 4..15 goes on to the conversions. */
  lemma TrkUnfold(parts: seq<string>)
    requires |parts| >= 17 && !AnyGarbled(parts[4..16])
    ensures IsDecimal(parts[7]) && IsDecimal(parts[11]) && IsDecimal(parts[15])
    ensures PackTrk(parts) == TrkFrame(parts[4], parts[7], parts[11], parts[15])
  {
    var sel := parts[4..16];
    assert !IsGarbled(sel[3]) && !IsGarbled(sel[7]) && !IsGarbled(sel[11]);
    assert sel[0] == parts[4] && sel[3] == parts[7] && sel[7] == parts[11] && sel[11] == parts[15];
  }

  /**
   * Where each field of a type-13 frame comes from, in token positions of the
   * whole line: time from token 4, rssi_1 from 7, rssi_2 from 11, battery from
   * 15 divided by 1000.
   */
  lemma TrkFieldMap(parts: seq<string>)
    requires PackTrk(parts).Packed?
    ensures |parts| >= 17
    ensures var f := PackTrk(parts).frame;
      && f.tag == 13 && |Values(f)| == 5
      && TimeOf(parts[4]).Some? && IsInteger(parts[7]) && IsInteger(parts[11]) && IsDecimal(parts[15])
      && f.fields == [Real(TimeOf(parts[4]).value), Int(IntValue(parts[7])), Int(IntValue(parts[11])),
                      Real(DecimalValue(parts[15]) / 1000.0)]
  {
    TrkUnfold(parts);
    TrkFrameFields(parts[4], parts[7], parts[11], parts[15]);
  }

  /** Only `parts[4:16]` matters: tokens 0..3 and 16.. may hold anything. */
  lemma TrkSelection(p: seq<string>, q: seq<string>)
    requires |p| >= 17 && |q| >= 17 && p[4..16] == q[4..16]
    ensures PackTrk(p) == PackTrk(q)
  {
  }

  /**
   * Two ways a record that passed `is_garbled` still raises: a time token
   * whose slices `float()` refuses, or a '.' in either rssi token.
   */
  lemma TrkFaults(parts: seq<string>)
    requires |parts| >= 17 && !AnyGarbled(parts[4..16])
    requires TimeOf(parts[4]).None? || '.' in parts[7] || '.' in parts[11]
    ensures PackTrk(parts) == Fault
  {
    TrkUnfold(parts);
    IntegerIsDecimal(parts[7]);
    IntegerIsDecimal(parts[11]);
  }

  /** When both conversions succeed, the frame is whatever `struct.pack` makes of the converted values. */
  lemma {:induction false} TrkFrameConverted(timeTok: string, rssi1Tok: string, rssi2Tok: string, batTok: string)
    requires IsDecimal(batTok) && TimeOf(timeTok).Some? && IsInteger(rssi1Tok) && IsInteger(rssi2Tok)
    ensures TrkFrame(timeTok, rssi1Tok, rssi2Tok, batTok)
         == TrkPacket(TimeOf(timeTok).value, IntValue(rssi1Tok), IntValue(rssi2Tok), DecimalValue(batTok) / 1000.0)
  {
    var rssi := ParseInts([rssi1Tok, rssi2Tok]).value;
    assert rssi[0] == IntValue(rssi1Tok) && rssi[1] == IntValue(rssi2Tok);
  }

  /**
   * The third way: `struct.pack` raises for a type-13 frame exactly when an
   * rssi value needs more than 32 bits. With `TrkUnfold` and
   * `TrkFrameConverted` this reaches back to the record's tokens.
   */
  lemma {:induction false} TrkPacketRange(time: real, rssi1: int, rssi2: int, bat: real)
    ensures TrkPacket(time, rssi1, rssi2, bat) == Fault <==> !FitsInt32(rssi1) || !FitsInt32(rssi2)
  {
    var fs := [Real(time), Int(rssi1), Int(rssi2), Real(bat)];
    if FitsInt32(rssi1) && FitsInt32(rssi2) {
      assert IntsFit(fs);
      IntsFitConcat([Int(13)], fs);
    } else {
      assert !IntsFit(fs) by {
        assert fs[1] == Int(rssi1) && fs[2] == Int(rssi2);
      }
      IntsFitTail(13, fs);
    }
  }

  /** A packed type-13 frame holds the converted tokens. */
  lemma {:induction false} TrkFrameFields(timeTok: string, rssi1Tok: string, rssi2Tok: string, batTok: string)
    requires IsDecimal(batTok) && TrkFrame(timeTok, rssi1Tok, rssi2Tok, batTok).Packed?
    ensures TimeOf(timeTok).Some? && IsInteger(rssi1Tok) && IsInteger(rssi2Tok)
    ensures TrkFrame(timeTok, rssi1Tok, rssi2Tok, batTok).frame.fields
         == [Real(TimeOf(timeTok).value), Int(IntValue(rssi1Tok)), Int(IntValue(rssi2Tok)), Real(DecimalValue(batTok) / 1000.0)]
  {
    assert ParseInts([rssi1Tok, rssi2Tok]).Some?;
    assert IsInteger([rssi1Tok, rssi2Tok][0]) && IsInteger([rssi1Tok, rssi2Tok][1]);
    TrkFrameConverted(timeTok, rssi1Tok, rssi2Tok, batTok);
  }

  lemma TrkFramePacked(timeTok: string, rssi1Tok: string, rssi2Tok: string, batTok: string)
    requires IsDecimal(batTok) && TimeOf(timeTok).Some?
    requires IsInteger(rssi1Tok) && FitsInt32(IntValue(rssi1Tok))
    requires IsInteger(rssi2Tok) && FitsInt32(IntValue(rssi2Tok))
    ensures TrkFrame(timeTok, rssi1Tok, rssi2Tok, batTok).Packed?
  {
    TrkFrameConverted(timeTok, rssi1Tok, rssi2Tok, batTok);
    TrkPacketRange(TimeOf(timeTok).value, IntValue(rssi1Tok), IntValue(rssi2Tok), DecimalValue(batTok) / 1000.0);
  }

  /** A clock-shaped time token, numbers in `parts[4:16]` and 32-bit integers at 7 and 11 give a frame. */
  lemma TrkAccepts(parts: seq<string>)
    requires |parts| >= 17 && IsClockToken(parts[4])
    requires forall k | 5 <= k < 16 :: IsDecimal(parts[k])
    requires IsInteger(parts[7]) && FitsInt32(IntValue(parts[7]))
    requires IsInteger(parts[11]) && FitsInt32(IntValue(parts[11]))
    ensures PackTrk(parts).Packed?
  {
    var sel := parts[4..16];
    ClockTime(parts[4]);
    forall k | 0 <= k < 12 ensures !IsGarbled(sel[k]) {
      assert sel[k] == parts[k + 4];
    }
    TrkUnfold(parts);
    TrkFramePacked(parts[4], parts[7], parts[11], parts[15]);
  }

  // ===========================================================================
  // Properties of the GPS decoder
  // ===========================================================================

  /** A packed type-12 frame comes from successful conversions of every token. */
  lemma GpsFrameUnfold(timeTok: string, altTok: string, latTok: string, lonTok: string, restToks: seq<string>)
    requires IsDecimal(latTok) && IsDecimal(lonTok) && |restToks| == 8
    requires GpsFrame(timeTok, altTok, latTok, lonTok, restToks).Packed?
    ensures TimeOf(timeTok).Some? && ParseInts([altTok]).Some? && ParseInts(restToks).Some?
    ensures GpsFrame(timeTok, altTok, latTok, lonTok, restToks)
         == GpsPacket(TimeOf(timeTok).value, ParseInts([altTok]).value[0], DecimalValue(latTok), DecimalValue(lonTok),
                      ParseInts(restToks).value)
  {
  }

  lemma GpsFrameFields(timeTok: string, altTok: string, latTok: string, lonTok: string, restToks: seq<string>)
    requires IsDecimal(latTok) && IsDecimal(lonTok) && |restToks| == 8
    requires GpsFrame(timeTok, altTok, latTok, lonTok, restToks).Packed?
    ensures var f := GpsFrame(timeTok, altTok, latTok, lonTok, restToks).frame;
      && |f.fields| == 12
      && TimeOf(timeTok).Some? && f.fields[0] == Real(TimeOf(timeTok).value)
      && IsInteger(altTok) && f.fields[1] == Int(IntValue(altTok))
      && f.fields[2] == Real(DecimalValue(latTok)) && f.fields[3] == Real(DecimalValue(lonTok))
      && (forall k | 0 <= k < 8 :: IsInteger(restToks[k]) && f.fields[k + 4] == Int(IntValue(restToks[k])))
  {
    GpsFrameUnfold(timeTok, altTok, latTok, lonTok, restToks);
    var rest := ParseInts(restToks).value;
    var head := [Real(TimeOf(timeTok).value), Int(ParseInts([altTok]).value[0]), Real(DecimalValue(latTok)), Real(DecimalValue(lonTok))];
    var f := GpsFrame(timeTok, altTok, latTok, lonTok, restToks).frame;
    assert f.fields == head + IntFields(rest);
    FieldsThenInts(f.fields, head, rest);
  }

  /** A 22-token record with twelve numbers at 4..15 goes on to the conversions. */
  lemma GpsUnfold(parts: seq<string>)
    requires |parts| == 22 && !AnyGarbled(parts[4..16])
    ensures IsDecimal(parts[6]) && IsDecimal(parts[7])
    ensures PackGps(parts) == GpsFrame(parts[4], parts[5], parts[6], parts[7], parts[8..16])
  {
    var sel := parts[4..16];
    assert !IsGarbled(sel[2]) && !IsGarbled(sel[3]);
    assert sel[4..12] == parts[8..16];
  }

  /**
   * Where each field of a type-12 frame comes from, in token positions of the
   * whole line: time from 4, altitude from 5, lat from 6, lon from 7, then
   * hv, hdir, vv, fix, satTotal, sat24, sat32, sat40 from 8..15.
   */
  lemma GpsFieldMap(parts: seq<string>)
    requires PackGps(parts).Packed?
    ensures |parts| == 22
    ensures var f := PackGps(parts).frame;
      && f.tag == 12 && |Values(f)| == 13
      && TimeOf(parts[4]).Some? && f.fields[0] == Real(TimeOf(parts[4]).value)
      && IsInteger(parts[5]) && f.fields[1] == Int(IntValue(parts[5]))
      && IsDecimal(parts[6]) && f.fields[2] == Real(DecimalValue(parts[6]))
      && IsDecimal(parts[7]) && f.fields[3] == Real(DecimalValue(parts[7]))
      && (forall k | 8 <= k < 16 :: IsInteger(parts[k]) && f.fields[k - 4] == Int(IntValue(parts[k])))
  {
    GpsUnfold(parts);
    GpsFrameFields(parts[4], parts[5], parts[6], parts[7], parts[8..16]);
    var f := PackGps(parts).frame;
    forall k | 8 <= k < 16 ensures IsInteger(parts[k]) && f.fields[k - 4] == Int(IntValue(parts[k])) {
      assert parts[8..16][k - 8] == parts[k];
    }
  }

  /** Only `parts[4:16]` matters once the count is 22. */
  lemma GpsSelection(p: seq<string>, q: seq<string>)
    requires |p| == 22 && |q| == 22 && p[4..16] == q[4..16]
    ensures PackGps(p) == PackGps(q)
  {
  }

  /**
   * Two ways a record that passed `is_garbled` still raises: a time token
   * whose slices `float()` refuses, or a '.' in the altitude or in one of
   * tokens 8..15.
   */
  lemma GpsFaults(parts: seq<string>, j: nat)
    requires |parts| == 22 && !AnyGarbled(parts[4..16])
    requires TimeOf(parts[4]).None? || ((j == 5 || 8 <= j < 16) && '.' in parts[j])
    ensures PackGps(parts) == Fault
  {
    GpsUnfold(parts);
    if TimeOf(parts[4]).Some? {
      assert parts[4..16][j - 4] == parts[j];
      IntegerIsDecimal(parts[j]);
      if j != 5 {
        assert parts[8..16][j - 8] == parts[j];
      }
    }
  }

  /** The third way: the altitude or one of tokens 8..15 lies outside the 32-bit range. */
  lemma {:induction false} GpsRangeFault(parts: seq<string>, j: nat)
    requires |parts| == 22 && !AnyGarbled(parts[4..16]) && TimeOf(parts[4]).Some?
    requires IsInteger(parts[5]) && forall k | 8 <= k < 16 :: IsInteger(parts[k])
    requires (j == 5 || 8 <= j < 16) && !FitsInt32(IntValue(parts[j]))
    ensures PackGps(parts) == Fault
  {
    GpsUnfold(parts);
    var restToks := parts[8..16];
    assert forall k | 0 <= k < 8 :: restToks[k] == parts[k + 8];
    GpsFrameConverted(parts[4], parts[5], parts[6], parts[7], restToks);
    var rest := ParseInts(restToks).value;
    if j != 5 {
      assert rest[j - 8] == IntValue(parts[j]);
    }
    GpsPacketRange(TimeOf(parts[4]).value, IntValue(parts[5]), DecimalValue(parts[6]), DecimalValue(parts[7]), rest,
                   if j == 5 then 0 else j - 7);
  }

  /** When every conversion succeeds, the frame is whatever `struct.pack` makes of the converted values. */
  lemma {:induction false} GpsFrameConverted(timeTok: string, altTok: string, latTok: string, lonTok: string, restToks: seq<string>)
    requires IsDecimal(latTok) && IsDecimal(lonTok) && |restToks| == 8
    requires TimeOf(timeTok).Some? && IsInteger(altTok) && forall k | 0 <= k < 8 :: IsInteger(restToks[k])
    ensures GpsFrame(timeTok, altTok, latTok, lonTok, restToks)
         == GpsPacket(TimeOf(timeTok).value, IntValue(altTok), DecimalValue(latTok), DecimalValue(lonTok), ParseInts(restToks).value)
  {
    assert ParseInts([altTok]).value[0] == IntValue(altTok);
  }

  /**
   * `struct.pack` raises for a type-12 frame when the altitude (`m == 0`) or
   * one of the eight trailing integers (`m` from 1) needs more than 32 bits.
   */
  lemma {:induction false} GpsPacketRange(time: real, alt: int, lat: real, lon: real, rest: seq<int>, m: nat)
    requires |rest| == 8
    requires (m == 0 && !FitsInt32(alt)) || (1 <= m <= 8 && !FitsInt32(rest[m - 1]))
    ensures GpsPacket(time, alt, lat, lon, rest) == Fault
  {
    var fs := [Real(time), Int(alt), Real(lat), Real(lon)] + IntFields(rest);
    assert !IntsFit(fs) by {
      if m == 0 {
        assert fs[1] == Int(alt);
      } else {
        assert fs[m + 3] == IntFields(rest)[m - 1];
      }
    }
    IntsFitTail(12, fs);
  }

  lemma GpsFramePacked(timeTok: string, altTok: string, latTok: string, lonTok: string, restToks: seq<string>)
    requires IsDecimal(latTok) && IsDecimal(lonTok) && |restToks| == 8
    requires TimeOf(timeTok).Some? && IsInteger(altTok) && FitsInt32(IntValue(altTok))
    requires forall k | 0 <= k < 8 :: IsInteger(restToks[k]) && FitsInt32(IntValue(restToks[k]))
    ensures GpsFrame(timeTok, altTok, latTok, lonTok, restToks).Packed?
  {
    var rest := ParseInts(restToks).value;
    var head := [Real(TimeOf(timeTok).value), Int(ParseInts([altTok]).value[0]), Real(DecimalValue(latTok)), Real(DecimalValue(lonTok))];
    IntFieldsFit(rest);
    IntsFitConcat(head, IntFields(rest));
    IntsFitConcat([Int(12)], head + IntFields(rest));
  }

  /** A clock-shaped time token, numbers at 6 and 7 and 32-bit integers at 5 and 8..15 give a frame. */
  lemma GpsAccepts(parts: seq<string>)
    requires |parts| == 22 && IsClockToken(parts[4])
    requires IsDecimal(parts[6]) && IsDecimal(parts[7])
    requires forall k | 5 <= k < 16 && k != 6 && k != 7 :: IsInteger(parts[k]) && FitsInt32(IntValue(parts[k]))
    ensures PackGps(parts).Packed?
  {
    var sel := parts[4..16];
    ClockTime(parts[4]);
    forall k | 0 <= k < 12 ensures !IsGarbled(sel[k]) {
      if k != 0 && k != 2 && k != 3 { IntegerIsDecimal(sel[k]); }
    }
    GpsUnfold(parts);
    assert forall k | 0 <= k < 8 :: parts[8..16][k] == parts[k + 8];
    GpsFramePacked(parts[4], parts[5], parts[6], parts[7], parts[8..16]);
  }

  // ===========================================================================
  // Cutting and cleaning
  // ===========================================================================

  /**
   * Each decoder reads only what follows the first copy of its marker: with
   * no earlier copy, the text before the marker is irrelevant.
   */
  lemma RavCut(pre: string, rest: string)
    requires !Contains(pre + "RA", "RAV")
    ensures Contains(pre + "RAV" + rest, "RAV")
    ensures DecodeRav(pre + "RAV" + rest) == PackRav(Tokens(CleanRav(rest)))
  {
    assert "RAV"[..2] == "RA";
    FirstIndexAfter(pre, "RAV", rest);
    assert (pre + "RAV" + rest)[|pre| + 3..] == rest;
  }

  lemma TrkCut(pre: string, rest: string)
    requires !Contains(pre + "RX_NOMT", "RX_NOMTK")
    ensures Contains(pre + "RX_NOMTK" + rest, "RX_NOMTK")
    ensures DecodeTrk(pre + "RX_NOMTK" + rest) == PackTrk(Tokens(CleanTrk(rest)))
  {
    assert "RX_NOMTK"[..7] == "RX_NOMT";
    FirstIndexAfter(pre, "RX_NOMTK", rest);
    assert (pre + "RX_NOMTK" + rest)[|pre| + 8..] == rest;
  }

  lemma GpsCut(pre: string, rest: string)
    requires !Contains(pre + "GPS_STA", "GPS_STAT")
    ensures Contains(pre + "GPS_STAT" + rest, "GPS_STAT")
    ensures DecodeGps(pre + "GPS_STAT" + rest) == PackGps(Tokens(CleanGps(rest)))
  {
    assert "GPS_STAT"[..7] == "GPS_STA";
    FirstIndexAfter(pre, "GPS_STAT", rest);
    assert (pre + "GPS_STAT" + rest)[|pre| + 8..] == rest;
  }

  /** None of the decoders deletes the empty string. */
  lemma JunkPatterns()
    ensures NoEmptyPattern(RavJunk) && NoEmptyPattern(TrkJunk) && NoEmptyPattern(GpsJunk)
  {
    assert |GpsId| == 11;
    assert TrkJunk[3] == GpsId && GpsJunk[10] == GpsId;
  }

  /** `pack_RAV` leaves no '#', '"', ',' or ':' in the text it tokenizes. */
  lemma RavCleanChars(s: string)
    ensures forall c <- CleanRav(s) :: c in s && c !in "#\",:"
  {
    var u := Strip(s);
    JunkPatterns();
    StripKeepsChars(s);
    RemoveAllKeepsChars(u, RavJunk);
    RemoveAllCharGone(u, RavJunk, '#');
    RemoveAllCharGone(u, RavJunk, '"');
    RemoveAllCharGone(u, RavJunk, ',');
    RemoveAllCharGone(u, RavJunk, ':');
  }

  /** `pack_FW_TRK` leaves no ASCII letter, ':' or '_' in the text it tokenizes. */
  lemma TrkCleanChars(s: string)
    ensures forall c <- CleanTrk(s) :: c in s && !IsAsciiLetter(c) && c != ':' && c != '_'
  {
    var u := Strip(s);
    JunkPatterns();
    StripKeepsChars(s);
    RemoveAllKeepsChars(u, TrkJunk);
    RemoveAllCharGone(u, TrkJunk, ':');
    RemoveAllCharGone(u, TrkJunk, '_');
  }

  /** `pack_FW_GPS` leaves no '#' or ':' in the text it tokenizes. */
  lemma GpsCleanChars(s: string)
    ensures forall c <- CleanGps(s) :: c in s && c != '#' && c != ':'
  {
    var u := Strip(s);
    JunkPatterns();
    StripKeepsChars(s);
    RemoveAllKeepsChars(u, GpsJunk);
    RemoveAllCharGone(u, GpsJunk, '#');
    RemoveAllCharGone(u, GpsJunk, ':');
  }

  /**
   * Text that is already stripped and holds none of the deleted substrings
   * goes through `pack_RAV`'s cleanup unchanged.
   */
  lemma {:induction false} CleanRavKeeps(s: string)
    requires s == [] || (!IsSpace(s[0]) && !IsSpace(s[|s| - 1]))
    requires ContainsNone(s, RavJunk)
    ensures CleanRav(s) == s
  {
    StripTrimmed(s);
    JunkPatterns();
    RemoveAllAbsent(s, RavJunk);
  }

  /** The same for `pack_FW_TRK`, whose cleanup also deletes every ASCII letter. */
  lemma {:induction false} CleanTrkKeeps(s: string)
    requires s == [] || (!IsSpace(s[0]) && !IsSpace(s[|s| - 1]))
    requires ContainsNone(s, TrkJunk)
    requires NoAsciiLetters(s)
    ensures CleanTrk(s) == s
  {
    assert RemoveAll(Strip(s), TrkJunk) == s by {
      StripTrimmed(s);
      JunkPatterns();
      RemoveAllAbsent(s, TrkJunk);
    }
    DropLettersKeeps(s);
  }

  lemma {:induction false} DropLettersKeeps(s: string)
    requires NoAsciiLetters(s)
    ensures DropRange(DropRange(s, 'a', 'z'), 'A', 'Z') == s
  {
    DropRangeOutside(s, 'a', 'z');
    DropRangeOutside(s, 'A', 'Z');
  }

  /** The same for `pack_FW_GPS`. */
  lemma {:induction false} CleanGpsKeeps(s: string)
    requires s == [] || (!IsSpace(s[0]) && !IsSpace(s[|s| - 1]))
    requires ContainsNone(s, GpsJunk)
    ensures CleanGps(s) == s
  {
    StripTrimmed(s);
    JunkPatterns();
    RemoveAllAbsent(s, GpsJunk);
  }

  /**
   * End to end: a report whose text after the marker is a space and then
   * words joined by single spaces, none of them holding a deleted substring,
   * reaches `pack_RAV`'s arity check as exactly those words.
   */
  lemma {:induction false} RavLine(pre: string, toks: seq<string>)
    requires !Contains(pre + "RA", "RAV")
    requires toks != [] && forall k | 0 <= k < |toks| :: IsWord(toks[k])
    requires ContainsNone(Join(" ", toks), RavJunk)
    ensures Contains(pre + "RAV" + " " + Join(" ", toks), "RAV")
    ensures DecodeRav(pre + "RAV" + " " + Join(" ", toks)) == PackRav(toks)
  {
    var body := Join(" ", toks);
    JoinTrimmed(toks);
    assert pre + "RAV" + " " + body == pre + "RAV" + (" " + body);
    RavCut(pre, " " + body);
    assert CleanRav(" " + body) == body by {
      StripSpaceThen(body);
      JunkPatterns();
      RemoveAllAbsent(body, RavJunk);
    }
    TokensJoin(toks);
  }

  /** The same for `pack_FW_TRK`, whose words must also hold no ASCII letter. */
  lemma {:induction false} TrkLine(pre: string, toks: seq<string>)
    requires !Contains(pre + "RX_NOMT", "RX_NOMTK")
    requires toks != [] && forall k | 0 <= k < |toks| :: IsWord(toks[k])
    requires ContainsNone(Join(" ", toks), TrkJunk) && NoAsciiLetters(Join(" ", toks))
    ensures Contains(pre + "RX_NOMTK" + " " + Join(" ", toks), "RX_NOMTK")
    ensures DecodeTrk(pre + "RX_NOMTK" + " " + Join(" ", toks)) == PackTrk(toks)
  {
    var body := Join(" ", toks);
    JoinTrimmed(toks);
    assert pre + "RX_NOMTK" + " " + body == pre + "RX_NOMTK" + (" " + body);
    TrkCut(pre, " " + body);
    assert CleanTrk(" " + body) == body by {
      StripSpaceThen(body);
      JunkPatterns();
      RemoveAllAbsent(body, TrkJunk);
      DropLettersKeeps(body);
    }
    TokensJoin(toks);
  }

  /** The same for `pack_FW_GPS`. */
  lemma {:induction false} GpsLine(pre: string, toks: seq<string>)
    requires !Contains(pre + "GPS_STA", "GPS_STAT")
    requires toks != [] && forall k | 0 <= k < |toks| :: IsWord(toks[k])
    requires ContainsNone(Join(" ", toks), GpsJunk)
    ensures Contains(pre + "GPS_STAT" + " " + Join(" ", toks), "GPS_STAT")
    ensures DecodeGps(pre + "GPS_STAT" + " " + Join(" ", toks)) == PackGps(toks)
  {
    var body := Join(" ", toks);
    JoinTrimmed(toks);
    assert pre + "GPS_STAT" + " " + body == pre + "GPS_STAT" + (" " + body);
    GpsCut(pre, " " + body);
    assert CleanGps(" " + body) == body by {
      StripSpaceThen(body);
      JunkPatterns();
      RemoveAllAbsent(body, GpsJunk);
    }
    TokensJoin(toks);
  }

  /** The tokens each decoder tests hold no whitespace and none of the characters it deletes on their own. */
  lemma TokensClean(s: string)
    ensures forall t <- Tokens(CleanRav(s)), c <- t :: c in s && !IsSpace(c) && c !in "#\",:"
    ensures forall t <- Tokens(CleanTrk(s)), c <- t :: c in s && !IsSpace(c) && !IsAsciiLetter(c) && c != ':' && c != '_'
    ensures forall t <- Tokens(CleanGps(s)), c <- t :: c in s && !IsSpace(c) && c != '#' && c != ':'
  {
    RavCleanChars(s);
    TokenChars(CleanRav(s));
    TrkCleanChars(s);
    TokenChars(CleanTrk(s));
    GpsCleanChars(s);
    TokenChars(CleanGps(s));
  }
}
