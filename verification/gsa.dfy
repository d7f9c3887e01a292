/**
 * GSA, GNSS DOP and Active Satellites: the two mode tables and
 * `GSA::from_field`, which reads the satellite ids from field 2 up to the
 * first field with a `.` in it, and the three dilutions of precision from
 * the last three fields.
 */
module Gsa {
  import opened Wrappers
  import opened StdParse
  import opened Oracles
  import opened Decoder

  const Dot: u8 := 0x2E

  /**
   * `GSAOperationModeConfig`. The source names the manual variant `Manuel`;
   * `InvalidConfig` is its `Invalid`.
   */
  datatype OperationModeConfig = Automatic | Manual | InvalidConfig

  /** `GSAOperationMode`; `InvalidMode` is its `Invalid`. */
  datatype OperationMode = FixNotAvailable | TwoDimensional | ThreeDimensional | InvalidMode

  /** `GSAOperationModeConfig::from_field`: exactly `M` or exactly `A`. */
  function ConfigFromField(field: seq<u8>): (c: OperationModeConfig)
    ensures c == Manual <==> field == [0x4D]
    ensures c == Automatic <==> field == [0x41]
  {
    if field == [0x4D] then Manual
    else if field == [0x41] then Automatic
    else InvalidConfig
  }

  /** The field a receiver writes for a configuration. */
  function ConfigCode(c: OperationModeConfig): (field: seq<u8>)
    requires c != InvalidConfig
    ensures |field| == 1
  {
    if c == Manual then [0x4D] else [0x41]
  }

  lemma ConfigRoundTrip(c: OperationModeConfig)
    requires c != InvalidConfig
    ensures ConfigFromField(ConfigCode(c)) == c
  {
  }

  /** `GSAOperationMode::from_field`: exactly `1`, `2` or `3`. */
  function ModeFromField(field: seq<u8>): (m: OperationMode)
    ensures m == FixNotAvailable <==> field == [0x31]
    ensures m == TwoDimensional <==> field == [0x32]
    ensures m == ThreeDimensional <==> field == [0x33]
  {
    if field == [0x31] then FixNotAvailable
    else if field == [0x32] then TwoDimensional
    else if field == [0x33] then ThreeDimensional
    else InvalidMode
  }

  /** The field a receiver writes for a mode. */
  function ModeCode(m: OperationMode): (field: seq<u8>)
    requires m != InvalidMode
    ensures |field| == 1
  {
    match m
    case FixNotAvailable => [0x31]
    case TwoDimensional => [0x32]
    case ThreeDimensional => [0x33]
  }

  lemma ModeRoundTrip(m: OperationMode)
    requires m != InvalidMode
    ensures ModeFromField(ModeCode(m)) == m
  {
  }

  // ---------------------------------------------------------------------
  // Satellite ids

  /** `take_while(|field| !field.contains(&b'.'))`: the fields before the first one with a `.`. */
  function TakeUntilDot(fields: seq<seq<u8>>): (r: seq<seq<u8>>)
    ensures |r| <= |fields| && r == fields[..|r|]
    ensures forall i :: 0 <= i < |r| ==> Dot !in r[i]
    ensures |r| < |fields| ==> Dot in fields[|r|]
    decreases |fields|
  {
    if fields == [] || Dot in fields[0] then [] else [fields[0]] + TakeUntilDot(fields[1..])
  }

  /** `filter(|field| field != b"")` */
  function DropEmpty(fields: seq<seq<u8>>): (r: seq<seq<u8>>)
    ensures |r| <= |fields|
    decreases |fields|
  {
    if fields == [] then []
    else if fields[0] == [] then DropEmpty(fields[1..])
    else [fields[0]] + DropEmpty(fields[1..])
  }

  /** The filter keeps exactly the non-empty fields, and drops one per empty field. */
  lemma {:induction false} DropEmptyKeeps(fields: seq<seq<u8>>)
    ensures forall f :: f in DropEmpty(fields) <==> f in fields && f != []
    ensures |DropEmpty(fields)| + multiset(fields)[[]] == |fields|
    decreases |fields|
  {
    if fields != [] {
      assert fields == [fields[0]] + fields[1..];
      DropEmptyKeeps(fields[1..]);
    }
  }

  /** Filtering keeps the order: it works piece by piece. */
  lemma {:induction false} DropEmptyAppend(a: seq<seq<u8>>, b: seq<seq<u8>>)
    ensures DropEmpty(a + b) == DropEmpty(a) + DropEmpty(b)
    decreases |a|
  {
    if a == [] {
      assert a + b == b;
    } else {
      assert (a + b)[0] == a[0] && (a + b)[1..] == a[1..] + b;
      DropEmptyAppend(a[1..], b);
    }
  }

  /** `u8::from_str(..).unwrap_or_default()` */
  function IdValue(field: seq<u8>): (id: u8)
    ensures ParseU8(field).Some? ==> id == ParseU8(field).value
    ensures ParseU8(field).None? ==> id == 0
  {
    match ParseU8(field)
    case Some(v) => v
    case None => 0
  }

  /** An id written with two digits, `01` as well as `71`, reads back as its number. */
  lemma TwoDigitId(n: nat)
    requires n < 100
    ensures IdValue(PaddedDigits(n, 2)) == n
  {
    assert Pow10(2) == 100;
    PaddedDigitsParse(n, 2, 255);
  }

  /** `map(..)` of `IdValue` */
  function IdValues(fields: seq<seq<u8>>): (ids: seq<u8>)
    ensures |ids| == |fields|
    ensures forall i :: 0 <= i < |fields| ==> ids[i] == IdValue(fields[i])
    decreases |fields|
  {
    if fields == [] then [] else [IdValue(fields[0])] + IdValues(fields[1..])
  }

  /** The ids in fields that follow the mode fields: non-empty ones before the first with a `.`. */
  function IdsOf(fields: seq<seq<u8>>): (ids: seq<u8>)
    ensures |ids| <= |fields|
  {
    IdValues(DropEmpty(TakeUntilDot(fields)))
  }

  /** One id per non-empty field before the first with a `.`. */
  lemma IdsCount(fields: seq<seq<u8>>)
    ensures |IdsOf(fields)| + multiset(TakeUntilDot(fields))[[]] == |TakeUntilDot(fields)|
  {
    DropEmptyKeeps(TakeUntilDot(fields));
  }

  /** `fields.iter().skip(2).take_while(..).filter(..).map(..).collect()` */
  function SatelliteIds(fields: seq<seq<u8>>): (ids: seq<u8>)
    ensures |fields| <= 2 ==> ids == []
    ensures |fields| > 2 ==> |ids| <= |fields| - 2
  {
    if |fields| <= 2 then [] else IdsOf(fields[2..])
  }

  /** A non-empty field without a `.` contributes its id first. */
  lemma IdsOfCons(f: seq<u8>, rest: seq<seq<u8>>)
    requires Dot !in f
    ensures f != [] ==> IdsOf([f] + rest) == [IdValue(f)] + IdsOf(rest)
    ensures f == [] ==> IdsOf([f] + rest) == IdsOf(rest)
  {
    assert ([f] + rest)[1..] == rest;
  }

  /** Nothing at or after a field with a `.` is an id. */
  lemma {:induction false} IdsOfStopAtDot(xs: seq<seq<u8>>, d: seq<u8>, rest: seq<seq<u8>>)
    requires Dot in d
    ensures IdsOf(xs + [d] + rest) == IdsOf(xs)
    decreases |xs|
  {
    if xs == [] {
      assert xs + [d] + rest == [d] + rest;
    } else if Dot in xs[0] {
      assert (xs + [d] + rest)[0] == xs[0];
    } else {
      assert xs + [d] + rest == [xs[0]] + (xs[1..] + [d] + rest);
      assert xs == [xs[0]] + xs[1..];
      IdsOfCons(xs[0], xs[1..] + [d] + rest);
      IdsOfCons(xs[0], xs[1..]);
      IdsOfStopAtDot(xs[1..], d, rest);
    }
  }

  // ---------------------------------------------------------------------
  // The record

  datatype Gsa = Gsa(
    config: OperationModeConfig,
    mode: OperationMode,
    satelliteIds: seq<u8>,
    pdop: F32,
    hdop: F32,
    vdop: F32)

  /** `GSA::from_field` */
  function FromField(fields: seq<seq<u8>>, p: Parsers): (g: Gsa)
    requires |fields| >= 3
    ensures g.config == ConfigFromField(fields[0]) && g.mode == ModeFromField(fields[1])
    ensures g.pdop == FloatOrZero(p, fields[|fields| - 3])
    ensures g.hdop == FloatOrZero(p, fields[|fields| - 2])
    ensures g.vdop == FloatOrZero(p, fields[|fields| - 1])
    ensures g.satelliteIds == IdsOf(fields[2..])
  {
    var vdop := FloatOrZero(p, fields[|fields| - 1]);
    var hdop := FloatOrZero(p, fields[|fields| - 2]);
    var pdop := FloatOrZero(p, fields[|fields| - 3]);
    Gsa(ConfigFromField(fields[0]), ModeFromField(fields[1]), SatelliteIds(fields), pdop, hdop, vdop)
  }

  /**
   * Once a field from the third on has a `.`, nothing after it changes the
   * satellite ids: the DOP fields at the end are never read as ids.
   */
  lemma SatelliteIdsIgnoreTail(head: seq<seq<u8>>, d: seq<u8>, rest: seq<seq<u8>>, other: seq<seq<u8>>, p: Parsers)
    requires |head| >= 2 && Dot in d
    ensures FromField(head + [d] + rest, p).satelliteIds == FromField(head + [d] + other, p).satelliteIds
  {
    var xs := head[2..];
    assert (head + [d] + rest)[2..] == xs + [d] + rest;
    assert (head + [d] + other)[2..] == xs + [d] + other;
    IdsOfStopAtDot(xs, d, rest);
    IdsOfStopAtDot(xs, d, other);
  }

  // ---------------------------------------------------------------------
  // The unit test of `GSA::from_field`

  /** The two-digit fields a receiver writes for ids below 100. */
  function DigitPairs(ids: seq<u8>): (fields: seq<seq<u8>>)
    ensures |fields| == |ids|
  {
    if ids == [] then [] else [PaddedDigits(ids[0], 2)] + DigitPairs(ids[1..])
  }

  lemma HeadThenTail(ids: seq<u8>, more: seq<u8>)
    requires ids != []
    ensures [ids[0]] + (ids[1..] + more) == ids + more
  {
    assert ids == [ids[0]] + ids[1..];
  }

  /** Two-digit fields in front contribute their ids, in order, before those of the rest. */
  lemma {:induction false} IdsOfDigitPairs(ids: seq<u8>, rest: seq<seq<u8>>)
    requires forall i :: 0 <= i < |ids| ==> ids[i] < 100
    ensures IdsOf(DigitPairs(ids) + rest) == ids + IdsOf(rest)
    decreases |ids|
  {
    if ids != [] {
      var f, tail := PaddedDigits(ids[0], 2), DigitPairs(ids[1..]) + rest;
      assert IdsOf(DigitPairs(ids) + rest) == [ids[0]] + IdsOf(tail) by {
        assert DigitPairs(ids) + rest == [f] + tail;
        assert f != [] && Dot !in f by {
          assert IsDigit(f[0], 10) && IsDigit(f[1], 10);
        }
        IdsOfCons(f, tail);
        TwoDigitId(ids[0]);
      }
      assert IdsOf(tail) == ids[1..] + IdsOf(rest) by {
        IdsOfDigitPairs(ids[1..], rest);
      }
      HeadThenTail(ids, IdsOf(rest));
    } else {
      assert DigitPairs(ids) + rest == rest;
    }
  }

  lemma GsaTestDopIds()
    ensures IdsOf(GsaTestDops()) == []
  {
    var dops := [[0x31, 0x2E, 0x35, 0x30]] + ([[0x30, 0x2E, 0x39, 0x30]] + [[0x31, 0x2E, 0x32, 0x30]]);
    assert [] + [dops[0]] + dops[1..] == dops;
    IdsOfStopAtDot([], dops[0], dops[1..]);
    IdsOfCons([], dops);
  }

  /** The fields of the test after the mode: the eleven ids written with two digits, an empty field, the DOPs. */
  lemma GsaTestIdFields()
    ensures GsaTestFields()[2..] == DigitPairs([32, 21, 22, 1, 3, 31, 4, 17, 8, 71, 72]) + GsaTestDops()
  {
    var first: seq<u8> := [32, 21, 22, 1, 3, 31, 4];
    var later: seq<u8> := [17, 8, 71, 72];
    assert GsaTestFields()[2..] == DigitPairs(first) + GsaTestLaterFields() by {
      GsaTestFirstPairs();
      GsaTestFieldsAfterMode();
    }
    assert DigitPairs(first) + GsaTestLaterFields() == DigitPairs(first + later) + GsaTestDops() by {
      GsaTestLaterPairs();
      PairsInTwoParts(first, later, GsaTestLaterFields(), GsaTestDops());
    }
    GsaTestIdList();
  }

  lemma GsaTestIdList()
    ensures [32, 21, 22, 1, 3, 31, 4] + [17, 8, 71, 72] == [32, 21, 22, 1, 3, 31, 4, 17, 8, 71, 72]
  {
  }

  /** The pairs of `first`, then those of `later`, then `rest`, are the pairs of `first + later`, then `rest`. */
  lemma PairsInTwoParts(first: seq<u8>, later: seq<u8>, back: seq<seq<u8>>, rest: seq<seq<u8>>)
    requires DigitPairs(later) + rest == back
    ensures DigitPairs(first) + back == DigitPairs(first + later) + rest
  {
    DigitPairsAppend(first, later);
    SeqAssoc(DigitPairs(first), DigitPairs(later), rest);
  }

  lemma SeqAssoc(a: seq<seq<u8>>, b: seq<seq<u8>>, c: seq<seq<u8>>)
    ensures a + (b + c) == (a + b) + c
  {
  }

  lemma GsaTestFirstPairs()
    ensures DigitPairs([32, 21, 22, 1, 3, 31, 4]) == [[0x33, 0x32], [0x32, 0x31], [0x32, 0x32], [0x30, 0x31], [0x30, 0x33], [0x33, 0x31], [0x30, 0x34]]
  {
    var a: seq<u8>, b: seq<u8> := [32, 21, 22], [1, 3, 31, 4];
    GsaTestPairs32();
    GsaTestPairs01();
    DigitPairsAppend(a, b);
    assert a + b == [32, 21, 22, 1, 3, 31, 4];
  }

  lemma GsaTestPairs32()
    ensures DigitPairs([32, 21, 22]) == [[0x33, 0x32], [0x32, 0x31], [0x32, 0x32]]
  {
    DigitPair(32); DigitPair(21); DigitPair(22);
  }

  lemma GsaTestPairs01()
    ensures DigitPairs([1, 3, 31, 4]) == [[0x30, 0x31], [0x30, 0x33], [0x33, 0x31], [0x30, 0x34]]
  {
    DigitPair(1); DigitPair(3); DigitPair(31); DigitPair(4);
  }

  lemma GsaTestLaterPairs()
    ensures DigitPairs([17, 8, 71, 72]) + GsaTestDops() == GsaTestLaterFields()
  {
    DigitPair(17); DigitPair(8); DigitPair(71); DigitPair(72);
    assert DigitPairs([17, 8, 71, 72]) == [[0x31, 0x37], [0x30, 0x38], [0x37, 0x31], [0x37, 0x32]];
  }

  lemma GsaTestFieldsAfterMode()
    ensures GsaTestFields()[2..] == [[0x33, 0x32], [0x32, 0x31], [0x32, 0x32], [0x30, 0x31], [0x30, 0x33], [0x33, 0x31], [0x30, 0x34]] + GsaTestLaterFields()
  {
  }

  lemma DigitPair(n: u8)
    requires n < 100
    ensures PaddedDigits(n, 2) == [0x30 + n / 10, 0x30 + n % 10]
  {
    assert PaddedDigits(n / 10, 1) == PaddedDigits(n / 10 / 10, 0) + [0x30 + n / 10 % 10];
  }

  lemma {:induction false} DigitPairsAppend(a: seq<u8>, b: seq<u8>)
    ensures DigitPairs(a + b) == DigitPairs(a) + DigitPairs(b)
    decreases |a|
  {
    if a == [] {
      assert a + b == b;
    } else {
      assert (a + b)[0] == a[0] && (a + b)[1..] == a[1..] + b;
      DigitPairsAppend(a[1..], b);
    }
  }

  function GsaTestDops(): seq<seq<u8>>
  {
    [[]] + ([[0x31, 0x2E, 0x35, 0x30]] + ([[0x30, 0x2E, 0x39, 0x30]] + [[0x31, 0x2E, 0x32, 0x30]]))
  }

  lemma GsaTestIds()
    ensures IdsOf(GsaTestFields()[2..]) == [32, 21, 22, 1, 3, 31, 4, 17, 8, 71, 72]
  {
    GsaTestDopIds();
    IdsOfDigitPairs([32, 21, 22, 1, 3, 31, 4, 17, 8, 71, 72], GsaTestDops());
    GsaTestIdFields();
  }

  lemma GsaTestDopFields()
    ensures |GsaTestFields()| == 17
    ensures GsaTestFields()[14] == [0x31, 0x2E, 0x35, 0x30]
    ensures GsaTestFields()[15] == [0x30, 0x2E, 0x39, 0x30]
    ensures GsaTestFields()[16] == [0x31, 0x2E, 0x32, 0x30]
  {
    var later := GsaTestLaterFields();
    assert |later| == 8 && later[5..] == [[0x31, 0x2E, 0x35, 0x30], [0x30, 0x2E, 0x39, 0x30], [0x31, 0x2E, 0x32, 0x30]];
    assert GsaTestFields()[9..] == later;
  }

  /**
   * `test_parse_gsa`: the seventeen fields of the test give an automatic 3D
   * fix, the eleven ids in order with the empty fourteenth field skipped,
   * and the DOPs the float parser reads from `1.50`, `0.90` and `1.20`.
   */
  lemma ParseGsaTestVector(p: Parsers)
    ensures |GsaTestFields()| == 17
    ensures FromField(GsaTestFields(), p).config == Automatic
    ensures FromField(GsaTestFields(), p).mode == ThreeDimensional
    ensures FromField(GsaTestFields(), p).satelliteIds == [32, 21, 22, 1, 3, 31, 4, 17, 8, 71, 72]
    ensures FromField(GsaTestFields(), p).pdop == FloatOrZero(p, [0x31, 0x2E, 0x35, 0x30])
    ensures FromField(GsaTestFields(), p).hdop == FloatOrZero(p, [0x30, 0x2E, 0x39, 0x30])
    ensures FromField(GsaTestFields(), p).vdop == FloatOrZero(p, [0x31, 0x2E, 0x32, 0x30])
  {
    GsaTestDopFields();
    GsaTestIds();
    assert GsaTestFields()[0] == [0x41] && GsaTestFields()[1] == [0x33];
  }
}
