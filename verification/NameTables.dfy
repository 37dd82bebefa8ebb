/** The Fourth Edition name classes as tables (names.rs). */
module NameTables {
  import opened Names

  // The tables are kept in blocks, split at U+037F and U+2000, so that each is checked by itself.

  const START_1: Ranges := [
    (0xC0, 0xD6), (0xD8, 0xF6), (0xF8, 0x131), (0x134, 0x13E), (0x141, 0x148), (0x14A, 0x17E),
    (0x180, 0x1C3), (0x1CD, 0x1F0), (0x1F4, 0x1F5), (0x1FA, 0x217), (0x250, 0x2A8), (0x2BB, 0x2C1)]

  const START_2: Ranges := [
    (0x386, 0x386), (0x388, 0x38A), (0x38C, 0x38C), (0x38E, 0x3A1), (0x3A3, 0x3CE), (0x3D0, 0x3D6),
    (0x3DA, 0x3DA), (0x3DC, 0x3DC), (0x3DE, 0x3DE)]

  const START_3: Ranges := [
    (0x3E0, 0x3E0), (0x3E2, 0x3F3), (0x401, 0x40C), (0x40E, 0x44F), (0x451, 0x45C), (0x45E, 0x481),
    (0x490, 0x4C4), (0x4C7, 0x4C8), (0x4CB, 0x4CC)]

  const START_4: Ranges := [
    (0x4D0, 0x4EB), (0x4EE, 0x4F5), (0x4F8, 0x4F9), (0x531, 0x556), (0x559, 0x559), (0x561, 0x586),
    (0x5D0, 0x5EA), (0x5F0, 0x5F2), (0x621, 0x63A)]

  const START_5: Ranges := [
    (0x641, 0x64A), (0x671, 0x6B7), (0x6BA, 0x6BE), (0x6C0, 0x6CE), (0x6D0, 0x6D3), (0x6D5, 0x6D5),
    (0x6E5, 0x6E6), (0x905, 0x939), (0x93D, 0x93D)]

  const START_6: Ranges := [
    (0x958, 0x961), (0x985, 0x98C), (0x98F, 0x990), (0x993, 0x9A8), (0x9AA, 0x9B0), (0x9B2, 0x9B2),
    (0x9B6, 0x9B9), (0x9DC, 0x9DD), (0x9DF, 0x9E1)]

  const START_7: Ranges := [
    (0x9F0, 0x9F1), (0xA05, 0xA0A), (0xA0F, 0xA10), (0xA13, 0xA28), (0xA2A, 0xA30), (0xA32, 0xA33),
    (0xA35, 0xA36), (0xA38, 0xA39), (0xA59, 0xA5C)]

  const START_8: Ranges := [
    (0xA5E, 0xA5E), (0xA72, 0xA74), (0xA85, 0xA8B), (0xA8D, 0xA8D), (0xA8F, 0xA91), (0xA93, 0xAA8),
    (0xAAA, 0xAB0), (0xAB2, 0xAB3), (0xAB5, 0xAB9)]

  const START_9: Ranges := [
    (0xABD, 0xABD), (0xAE0, 0xAE0), (0xB05, 0xB0C), (0xB0F, 0xB10), (0xB13, 0xB28), (0xB2A, 0xB30),
    (0xB32, 0xB33), (0xB36, 0xB39), (0xB3D, 0xB3D)]

  const START_10: Ranges := [
    (0xB5C, 0xB5D), (0xB5F, 0xB61), (0xB85, 0xB8A), (0xB8E, 0xB90), (0xB92, 0xB95), (0xB99, 0xB9A),
    (0xB9C, 0xB9C), (0xB9E, 0xB9F), (0xBA3, 0xBA4)]

  const START_11: Ranges := [
    (0xBA8, 0xBAA), (0xBAE, 0xBB5), (0xBB7, 0xBB9), (0xC05, 0xC0C), (0xC0E, 0xC10), (0xC12, 0xC28),
    (0xC2A, 0xC33), (0xC35, 0xC39), (0xC60, 0xC61)]

  const START_12: Ranges := [
    (0xC85, 0xC8C), (0xC8E, 0xC90), (0xC92, 0xCA8), (0xCAA, 0xCB3), (0xCB5, 0xCB9), (0xCDE, 0xCDE),
    (0xCE0, 0xCE1), (0xD05, 0xD0C), (0xD0E, 0xD10)]

  const START_13: Ranges := [
    (0xD12, 0xD28), (0xD2A, 0xD39), (0xD60, 0xD61), (0xE01, 0xE2E), (0xE30, 0xE30), (0xE32, 0xE33),
    (0xE40, 0xE45), (0xE81, 0xE82), (0xE84, 0xE84)]

  const START_14: Ranges := [
    (0xE87, 0xE88), (0xE8A, 0xE8A), (0xE8D, 0xE8D), (0xE94, 0xE97), (0xE99, 0xE9F), (0xEA1, 0xEA3),
    (0xEA5, 0xEA5), (0xEA7, 0xEA7), (0xEAA, 0xEAB)]

  const START_15: Ranges := [
    (0xEAD, 0xEAE), (0xEB0, 0xEB0), (0xEB2, 0xEB3), (0xEBD, 0xEBD), (0xEC0, 0xEC4), (0xF40, 0xF47),
    (0xF49, 0xF69), (0x10A0, 0x10C5), (0x10D0, 0x10F6)]

  const START_16: Ranges := [
    (0x1100, 0x1100), (0x1102, 0x1103), (0x1105, 0x1107), (0x1109, 0x1109), (0x110B, 0x110C), (0x110E, 0x1112),
    (0x113C, 0x113C), (0x113E, 0x113E), (0x1140, 0x1140)]

  const START_17: Ranges := [
    (0x114C, 0x114C), (0x114E, 0x114E), (0x1150, 0x1150), (0x1154, 0x1155), (0x1159, 0x1159), (0x115F, 0x1161),
    (0x1163, 0x1163), (0x1165, 0x1165), (0x1167, 0x1167)]

  const START_18: Ranges := [
    (0x1169, 0x1169), (0x116D, 0x116E), (0x1172, 0x1173), (0x1175, 0x1175), (0x119E, 0x119E), (0x11A8, 0x11A8),
    (0x11AB, 0x11AB), (0x11AE, 0x11AF), (0x11B7, 0x11B8)]

  const START_19: Ranges := [
    (0x11BA, 0x11BA), (0x11BC, 0x11C2), (0x11EB, 0x11EB), (0x11F0, 0x11F0), (0x11F9, 0x11F9), (0x1E00, 0x1E9B),
    (0x1EA0, 0x1EF9), (0x1F00, 0x1F15), (0x1F18, 0x1F1D)]

  const START_20: Ranges := [
    (0x1F20, 0x1F45), (0x1F48, 0x1F4D), (0x1F50, 0x1F57), (0x1F59, 0x1F59), (0x1F5B, 0x1F5B), (0x1F5D, 0x1F5D),
    (0x1F5F, 0x1F7D), (0x1F80, 0x1FB4), (0x1FB6, 0x1FBC)]

  const START_21: Ranges := [
    (0x1FBE, 0x1FBE), (0x1FC2, 0x1FC4), (0x1FC6, 0x1FCC), (0x1FD0, 0x1FD3), (0x1FD6, 0x1FDB), (0x1FE0, 0x1FEC),
    (0x1FF2, 0x1FF4), (0x1FF6, 0x1FFC)]

  const START_22: Ranges := [
    (0x2126, 0x2126), (0x212A, 0x212B), (0x212E, 0x212E), (0x2180, 0x2182), (0x3007, 0x3007), (0x3021, 0x3029),
    (0x3041, 0x3094), (0x30A1, 0x30FA), (0x3105, 0x312C), (0x4E00, 0x9FA5), (0xAC00, 0xD7A3)]

  const EXTRA_1: Ranges := [
    (0xB7, 0xB7), (0x2D0, 0x2D1), (0x300, 0x345), (0x360, 0x361)]

  const EXTRA_2: Ranges := [
    (0x387, 0x387), (0x483, 0x486), (0x591, 0x5A1), (0x5A3, 0x5B9), (0x5BB, 0x5BD), (0x5BF, 0x5BF),
    (0x5C1, 0x5C2), (0x5C4, 0x5C4), (0x640, 0x640)]

  const EXTRA_3: Ranges := [
    (0x64B, 0x652), (0x660, 0x669), (0x670, 0x670), (0x6D6, 0x6E4), (0x6E7, 0x6E8), (0x6EA, 0x6ED),
    (0x6F0, 0x6F9), (0x901, 0x903), (0x93C, 0x93C)]

  const EXTRA_4: Ranges := [
    (0x93E, 0x94D), (0x951, 0x954), (0x962, 0x963), (0x966, 0x96F), (0x981, 0x983), (0x9BC, 0x9BC),
    (0x9BE, 0x9C4), (0x9C7, 0x9C8), (0x9CB, 0x9CD)]

  const EXTRA_5: Ranges := [
    (0x9D7, 0x9D7), (0x9E2, 0x9E3), (0x9E6, 0x9EF), (0xA02, 0xA02), (0xA3C, 0xA3C), (0xA3E, 0xA42),
    (0xA47, 0xA48), (0xA4B, 0xA4D), (0xA66, 0xA71)]

  const EXTRA_6: Ranges := [
    (0xA81, 0xA83), (0xABC, 0xABC), (0xABE, 0xAC5), (0xAC7, 0xAC9), (0xACB, 0xACD), (0xAE6, 0xAEF),
    (0xB01, 0xB03), (0xB3C, 0xB3C), (0xB3E, 0xB43)]

  const EXTRA_7: Ranges := [
    (0xB47, 0xB48), (0xB4B, 0xB4D), (0xB56, 0xB57), (0xB66, 0xB6F), (0xB82, 0xB83), (0xBBE, 0xBC2),
    (0xBC6, 0xBC8), (0xBCA, 0xBCD), (0xBD7, 0xBD7)]

  const EXTRA_8: Ranges := [
    (0xBE7, 0xBEF), (0xC01, 0xC03), (0xC3E, 0xC44), (0xC46, 0xC48), (0xC4A, 0xC4D), (0xC55, 0xC56),
    (0xC66, 0xC6F), (0xC82, 0xC83), (0xCBE, 0xCC4)]

  const EXTRA_9: Ranges := [
    (0xCC6, 0xCC8), (0xCCA, 0xCCD), (0xCD5, 0xCD6), (0xCE6, 0xCEF), (0xD02, 0xD03), (0xD3E, 0xD43),
    (0xD46, 0xD48), (0xD4A, 0xD4D), (0xD57, 0xD57)]

  const EXTRA_10: Ranges := [
    (0xD66, 0xD6F), (0xE31, 0xE31), (0xE34, 0xE3A), (0xE46, 0xE4E), (0xE50, 0xE59), (0xEB1, 0xEB1),
    (0xEB4, 0xEB9), (0xEBB, 0xEBC), (0xEC6, 0xEC6)]

  const EXTRA_11: Ranges := [
    (0xEC8, 0xECD), (0xED0, 0xED9), (0xF18, 0xF19), (0xF20, 0xF29), (0xF35, 0xF35), (0xF37, 0xF37),
    (0xF39, 0xF39), (0xF3E, 0xF3F), (0xF71, 0xF84)]

  const EXTRA_12: Ranges := [
    (0xF86, 0xF8B), (0xF90, 0xF95), (0xF97, 0xF97), (0xF99, 0xFAD), (0xFB1, 0xFB7), (0xFB9, 0xFB9)]

  const EXTRA_13: Ranges := [
    (0x20D0, 0x20DC), (0x20E1, 0x20E1), (0x3005, 0x3005), (0x302A, 0x302F), (0x3031, 0x3035), (0x3099, 0x309A),
    (0x309D, 0x309E), (0x30FC, 0x30FE)]

  const START_MIDDLE: Ranges :=
    START_2 + START_3 + START_4 + START_5 + START_6 + START_7 + START_8 + START_9 +
    START_10 + START_11 + START_12 + START_13 + START_14 + START_15 + START_16 + START_17 +
    START_18 + START_19 + START_20 + START_21

  const EXTRA_MIDDLE: Ranges :=
    EXTRA_2 + EXTRA_3 + EXTRA_4 + EXTRA_5 + EXTRA_6 + EXTRA_7 + EXTRA_8 + EXTRA_9 +
    EXTRA_10 + EXTRA_11 + EXTRA_12

  /** Base characters and ideographs: productions [85] and [86] of XML 1.0 Fourth Edition. */
  const FOURTH_START: Ranges := START_1 + START_MIDDLE + START_22

  /** Digits, combining characters and extenders: productions [87] to [89]. */
  const FOURTH_EXTRA: Ranges := EXTRA_1 + EXTRA_MIDDLE + EXTRA_13

  const FOURTH := FourthEdition(FOURTH_START, FOURTH_EXTRA)

  /** A sorted table between two bounds. */
  predicate Fits(ranges: Ranges, low: int, high: int) {
    Sorted(ranges) && forall i: nat | i < |ranges| :: low <= ranges[i].0 && ranges[i].1 < high
  }

  lemma FitsConcat(a: Ranges, b: Ranges, low: int, middle: int, high: int)
    requires Fits(a, low, middle) && Fits(b, middle, high) && low <= middle <= high
    ensures Fits(a + b, low, high)
  {
    var c := a + b;
    forall i: nat | i < |c| ensures c[i].0 <= c[i].1 && low <= c[i].0 && c[i].1 < high {}
    forall i: nat, j: nat | i < j < |c| ensures c[i].1 < c[j].0 {}
  }

  lemma SomeConcat(c: char, a: Ranges, b: Ranges)
    ensures InSome(c, a + b) <==> InSome(c, a) || InSome(c, b)
  {
    if InSome(c, a) {
      var i: nat :| i < |a| && a[i].0 <= c as int <= a[i].1;
      assert (a + b)[i] == a[i];
    }
    if InSome(c, b) {
      var i: nat :| i < |b| && b[i].0 <= c as int <= b[i].1;
      assert (a + b)[|a| + i] == b[i];
    }
  }

  lemma Within(c: char, ranges: Ranges, low: int, high: int)
    requires Fits(ranges, low, high) && InSome(c, ranges)
    ensures low <= c as int < high
  {}

  lemma StartEdges()
    ensures Fits(START_1, 0xC0, 0x37F) && Fits(START_22, 0x2000, 0xD7A4)
  {}

  lemma StartGroup1()
    ensures Fits(START_2, 0x37F, 0x3E0)
    ensures Fits(START_3, 0x3E0, 0x4D0)
    ensures Fits(START_4, 0x4D0, 0x641)
  {}

  lemma StartGroup2()
    ensures Fits(START_5, 0x641, 0x958)
    ensures Fits(START_6, 0x958, 0x9F0)
    ensures Fits(START_7, 0x9F0, 0xA5E)
  {}

  lemma StartGroup3()
    ensures Fits(START_8, 0xA5E, 0xABD)
    ensures Fits(START_9, 0xABD, 0xB5C)
    ensures Fits(START_10, 0xB5C, 0xBA8)
  {}

  lemma StartGroup4()
    ensures Fits(START_11, 0xBA8, 0xC85)
    ensures Fits(START_12, 0xC85, 0xD12)
    ensures Fits(START_13, 0xD12, 0xE87)
  {}

  lemma StartGroup5()
    ensures Fits(START_14, 0xE87, 0xEAD)
    ensures Fits(START_15, 0xEAD, 0x1100)
    ensures Fits(START_16, 0x1100, 0x114C)
  {}

  lemma StartGroup6()
    ensures Fits(START_17, 0x114C, 0x1169)
    ensures Fits(START_18, 0x1169, 0x11BA)
    ensures Fits(START_19, 0x11BA, 0x1F20)
  {}

  lemma StartGroup7()
    ensures Fits(START_20, 0x1F20, 0x1FBE)
    ensures Fits(START_21, 0x1FBE, 0x2000)
  {}

  lemma StartMiddle()
    ensures Fits(START_MIDDLE, 0x37F, 0x2000)
  {
    hide Fits;
    StartGroup1();
    var done := START_2;
    FitsConcat(done, START_3, 0x37F, 0x3E0, 0x4D0);
    done := done + START_3;
    FitsConcat(done, START_4, 0x37F, 0x4D0, 0x641);
    done := done + START_4;
    StartGroup2();
    FitsConcat(done, START_5, 0x37F, 0x641, 0x958);
    done := done + START_5;
    FitsConcat(done, START_6, 0x37F, 0x958, 0x9F0);
    done := done + START_6;
    FitsConcat(done, START_7, 0x37F, 0x9F0, 0xA5E);
    done := done + START_7;
    StartGroup3();
    FitsConcat(done, START_8, 0x37F, 0xA5E, 0xABD);
    done := done + START_8;
    FitsConcat(done, START_9, 0x37F, 0xABD, 0xB5C);
    done := done + START_9;
    FitsConcat(done, START_10, 0x37F, 0xB5C, 0xBA8);
    done := done + START_10;
    StartGroup4();
    FitsConcat(done, START_11, 0x37F, 0xBA8, 0xC85);
    done := done + START_11;
    FitsConcat(done, START_12, 0x37F, 0xC85, 0xD12);
    done := done + START_12;
    FitsConcat(done, START_13, 0x37F, 0xD12, 0xE87);
    done := done + START_13;
    StartGroup5();
    FitsConcat(done, START_14, 0x37F, 0xE87, 0xEAD);
    done := done + START_14;
    FitsConcat(done, START_15, 0x37F, 0xEAD, 0x1100);
    done := done + START_15;
    FitsConcat(done, START_16, 0x37F, 0x1100, 0x114C);
    done := done + START_16;
    StartGroup6();
    FitsConcat(done, START_17, 0x37F, 0x114C, 0x1169);
    done := done + START_17;
    FitsConcat(done, START_18, 0x37F, 0x1169, 0x11BA);
    done := done + START_18;
    FitsConcat(done, START_19, 0x37F, 0x11BA, 0x1F20);
    done := done + START_19;
    StartGroup7();
    FitsConcat(done, START_20, 0x37F, 0x1F20, 0x1FBE);
    done := done + START_20;
    FitsConcat(done, START_21, 0x37F, 0x1FBE, 0x2000);
    done := done + START_21;
  }

  lemma StartFits()
    ensures Fits(FOURTH_START, 0xC0, 0xD7A4)
  {
    hide Fits;
    StartEdges();
    StartMiddle();
    FitsConcat(START_1, START_MIDDLE, 0xC0, 0x37F, 0x2000);
    FitsConcat(START_1 + START_MIDDLE, START_22, 0xC0, 0x2000, 0xD7A4);
  }

  lemma ExtraEdges()
    ensures Fits(EXTRA_1, 0xB7, 0x37F) && Fits(EXTRA_13, 0x2000, 0x30FF)
  {}

  lemma ExtraGroup1()
    ensures Fits(EXTRA_2, 0x37F, 0x64B)
    ensures Fits(EXTRA_3, 0x64B, 0x93E)
    ensures Fits(EXTRA_4, 0x93E, 0x9D7)
  {}

  lemma ExtraGroup2()
    ensures Fits(EXTRA_5, 0x9D7, 0xA81)
    ensures Fits(EXTRA_6, 0xA81, 0xB47)
    ensures Fits(EXTRA_7, 0xB47, 0xBE7)
  {}

  lemma ExtraGroup3()
    ensures Fits(EXTRA_8, 0xBE7, 0xCC6)
    ensures Fits(EXTRA_9, 0xCC6, 0xD66)
    ensures Fits(EXTRA_10, 0xD66, 0xEC8)
  {}

  lemma ExtraGroup4()
    ensures Fits(EXTRA_11, 0xEC8, 0xF86)
    ensures Fits(EXTRA_12, 0xF86, 0x2000)
  {}

  lemma ExtraMiddle()
    ensures Fits(EXTRA_MIDDLE, 0x37F, 0x2000)
  {
    hide Fits;
    ExtraGroup1();
    var done := EXTRA_2;
    FitsConcat(done, EXTRA_3, 0x37F, 0x64B, 0x93E);
    done := done + EXTRA_3;
    FitsConcat(done, EXTRA_4, 0x37F, 0x93E, 0x9D7);
    done := done + EXTRA_4;
    ExtraGroup2();
    FitsConcat(done, EXTRA_5, 0x37F, 0x9D7, 0xA81);
    done := done + EXTRA_5;
    FitsConcat(done, EXTRA_6, 0x37F, 0xA81, 0xB47);
    done := done + EXTRA_6;
    FitsConcat(done, EXTRA_7, 0x37F, 0xB47, 0xBE7);
    done := done + EXTRA_7;
    ExtraGroup3();
    FitsConcat(done, EXTRA_8, 0x37F, 0xBE7, 0xCC6);
    done := done + EXTRA_8;
    FitsConcat(done, EXTRA_9, 0x37F, 0xCC6, 0xD66);
    done := done + EXTRA_9;
    FitsConcat(done, EXTRA_10, 0x37F, 0xD66, 0xEC8);
    done := done + EXTRA_10;
    ExtraGroup4();
    FitsConcat(done, EXTRA_11, 0x37F, 0xEC8, 0xF86);
    done := done + EXTRA_11;
    FitsConcat(done, EXTRA_12, 0x37F, 0xF86, 0x2000);
    done := done + EXTRA_12;
  }

  lemma ExtraFits()
    ensures Fits(FOURTH_EXTRA, 0xB7, 0x30FF)
  {
    hide Fits;
    ExtraEdges();
    ExtraMiddle();
    FitsConcat(EXTRA_1, EXTRA_MIDDLE, 0xB7, 0x37F, 0x2000);
    FitsConcat(EXTRA_1 + EXTRA_MIDDLE, EXTRA_13, 0xB7, 0x2000, 0x30FF);
  }

  /** The tables are what the binary search asks for. */
  lemma TablesSorted()
    ensures Sorted(FOURTH_START) && Sorted(FOURTH_EXTRA)
  {
    StartFits();
    ExtraFits();
  }

  lemma EdgesStart(c: char)
    ensures InSome(c, START_1) || InSome(c, START_22) ==> FifthNameStart(c)
  {}

  lemma EdgesExtra(c: char)
    ensures InSome(c, EXTRA_1) || InSome(c, EXTRA_13) ==> FifthEdition.IsNameChar(c)
  {}

  /** Every character of the first table starts names of the Fifth Edition, and every character of the
      second may stand inside them. */
  lemma FifthClasses(c: char)
    ensures InSome(c, FOURTH_START) ==> FifthNameStart(c)
    ensures InSome(c, FOURTH_EXTRA) ==> FifthEdition.IsNameChar(c)
  {
    hide Fits, InSome;
    StartMiddle();
    ExtraMiddle();
    EdgesStart(c);
    EdgesExtra(c);
    SomeConcat(c, START_1, START_MIDDLE);
    SomeConcat(c, START_1 + START_MIDDLE, START_22);
    SomeConcat(c, EXTRA_1, EXTRA_MIDDLE);
    SomeConcat(c, EXTRA_1 + EXTRA_MIDDLE, EXTRA_13);
    if InSome(c, START_MIDDLE) { Within(c, START_MIDDLE, 0x37F, 0x2000); }
    if InSome(c, EXTRA_MIDDLE) { Within(c, EXTRA_MIDDLE, 0x37F, 0x2000); }
  }

  /** Every name of the Fourth Edition is a name of the Fifth. */
  lemma FourthWithinFifth(name: string)
    ensures FOURTH.IsName(name) ==> FifthEdition.IsName(name)
  {
    hide InSome, FifthNameStart;
    forall i: nat | i < |name|
      ensures FOURTH.IsNameStart(name[i]) ==> FifthEdition.IsNameStart(name[i])
      ensures FOURTH.IsNameChar(name[i]) ==> FifthEdition.IsNameChar(name[i])
    {
      FifthClasses(name[i]);
    }
  }
}
