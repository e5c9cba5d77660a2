/** The per-bit multiplier tables behind the two CLMM tick-to-price functions, with the certificate
    that each satisfies its 19 carry inequalities. */
module TickTables {
  import opened Rounding
  import opened BitFold

  const BITS: nat := 19
  /** Magnitudes the 19 table entries cover; the tick bounds lie well inside. */
  const TICK_SPAN: nat := 0x80000
  const MIN_TICK: int := -443636
  const MAX_TICK: int := 443636
  const Q96: nat := 0x1_0000_0000_0000_0000_0000_0000
  const Q32: nat := 0x1_0000_0000

  const MIN_SQRT_PRICE: nat := 4295048016
  const RAYDIUM_MAX_SQRT_PRICE: nat := 79226673521066979257578248091
  const ORCA_MAX_SQRT_PRICE: nat := 79226673515401279992447579055

  /** Raydium's per-bit multipliers (sqrtPriceMagics). */
  const MAGICS: seq<nat> := [
    0xfffcb933bd6fb800, 0xfff97272373d4000, 0xfff2e50f5f657000, 0xffe5caca7e10f000,
    0xffcb9843d60f7000, 0xff973b41fa98e800, 0xff2ea16466c9b000, 0xfe5dee046a9a3800,
    0xfcbe86c7900bb000, 0xf987a7253ac65800, 0xf3392b0822bb6000, 0xe7159475a2caf000,
    0xd097f3bdfd2f2000, 0xa9f746462d9f8000, 0x70d869a156f31c00, 0x31be135f97ed3200,
    0x9aa508b5b85a500, 0x5d6af8dedc582c, 0x2216e584f5fa]

  /** Orca's per-bit Q64 multipliers for negative ticks. */
  const NEGATIVE: seq<nat> := [
    18445821805675392311, 18444899583751176498, 18443055278223354162, 18439367220385604838,
    18431993317065449817, 18417254355718160513, 18387811781193591352, 18329067761203520168,
    18212142134806087854, 17980523815641551639, 17526086738831147013, 16651378430235024244,
    15030750278693429944, 12247334978882834399, 8131365268884726200, 3584323654723342297,
    696457651847595233, 26294789957452057, 37481735321082]

  /** Orca's per-bit Q96 multipliers for non-negative ticks. */
  const POSITIVE: seq<nat> := [
    79232123823359799118286999567, 79236085330515764027303304731, 79244008939048815603706035061,
    79259858533276714757314932305, 79291567232598584799939703904, 79355022692464371645785046466,
    79482085999252804386437311141, 79736823300114093921829183326, 80248749790819932309965073892,
    81282483887344747381513967011, 83390072131320151908154831281, 87770609709833776024991924138,
    97234110755111693312479820773, 119332217159966728226237229890, 179736315981702064433883588727,
    407748233172238350107850275304, 2098478828474011932436660412517, 55581415166113811149459800483533,
    38992368544603139932233054999993551]

  ghost const MAGICS_ONES: seq<nat> := [
    18446744073709551616, 18445821805675395072, 18443977407934601305, 18440289165698571674,
    18432914893692470403, 18418175195415540256, 18388731148799056322, 18329984191681429728,
    18213052719148865012, 17981422819357952666, 17526963021261866635, 16652210978343902665,
    15031501797420854576, 12247947330324981103, 8131771826986601598, 3584502866427774895,
    696492473860388424, 26296104664138151, 37483609361155, 76162531]

  ghost const MAGICS_NEED: seq<nat> := [
    242202408303, 242190299090, 242166082481, 242117656528, 242020833672, 241827304103,
    241440709104, 240669372198, 239134083144, 236092824516, 230125849686, 218640513812,
    197360895837, 160813329889, 106768691122, 47063873349, 9144820021, 345263091,
    492153, 1]

  ghost const NEGATIVE_ONES: seq<nat> := [
    18446744073709551616, 18445821805675392311, 18443977407934598850, 18440289165698567478,
    18432914893692463368, 18418175195415529478, 18388731148799035466, 18329984191681391131,
    18213052719148788671, 17981422819357802651, 17526963021261575450, 16652210978343353594,
    15031501797419866121, 12247947330323375219, 8131771826984472022, 3584502866425897898,
    696492473859659073, 26296104664083085, 37483609360998, 76162531]

  ghost const NEGATIVE_NEED: seq<nat> := [
    242202408303, 242190299090, 242166082481, 242117656528, 242020833672, 241827304103,
    241440709104, 240669372198, 239134083144, 236092824516, 230125849686, 218640513812,
    197360895837, 160813329889, 106768691122, 47063873349, 9144820021, 345263091,
    492153, 1]

  ghost const POSITIVE_ONES: seq<nat> := [
    79228162514264337593543950336, 79232123823359799118286999567, 79240047035742135098198828266,
    79255895837549753882639819013, 79287602951555555546117890668, 79351055238886287249021387662,
    79478112192985828264683945743, 79732836757937260015387211174, 80244737654238127488718973602,
    81278420067934296167840804769, 83385902940400299275461041535, 87766221508460644832294642638,
    97229249414171470058378025113, 119326250996567256184535330018, 179727329839858001577522965083,
    407727847289508202411734771016, 2098373912401228121358801911315, 55578636303768444659257259827406,
    38990419072385107768429658011568861, 19189247130466284822469633860112541934403]

  ghost const POSITIVE_NEED: seq<nat> := [
    4294967296, 4294967296, 4294967296, 4294967296, 4294967296, 4294967296,
    4294967296, 4294967296, 4294967296, 4294967296, 4294967296, 4294967296,
    4294967296, 4294967296, 4294967296, 4294967296, 4294967296, 4294967296,
    4294967296, 4294967296]

  /** One row of a table certificate: the carry inequality into bit i and what keeps its gap alive. */
  predicate Row(t: seq<nat>, unit: nat, ones: seq<nat>, need: seq<nat>, i: nat, down: bool)
    requires i < |t| && |ones| == |need| == |t| + 1
  {
    && SurvivesAt(t[i], unit, need[i], need[i + 1])
    && ones[i + 1] * unit <= ones[i] * t[i] < ones[i + 1] * unit + unit
    && (if down then t[i] + need[i + 1] <= ones[i] else ones[i] + need[i + 1] <= t[i])
  }

  ghost predicate Certified(t: seq<nat>, unit: nat, ones: seq<nat>, need: seq<nat>, down: bool) {
    && |t| == BITS && |ones| == |need| == BITS + 1
    && ones[0] == unit
    && forall i: nat :: i < BITS ==> Row(t, unit, ones, need, i, down)
  }

  lemma MagicsRowLow(i: nat)
    requires 0 <= i < 7
    ensures Row(MAGICS, Q64, MAGICS_ONES, MAGICS_NEED, i, true)
  {
    match i {
      case 0 =>
      case 1 =>
      case 2 =>
      case 3 =>
      case 4 =>
      case 5 =>
      case _ =>
    }
  }

  lemma MagicsRowMid(i: nat)
    requires 7 <= i < 13
    ensures Row(MAGICS, Q64, MAGICS_ONES, MAGICS_NEED, i, true)
  {
    match i {
      case 7 =>
      case 8 =>
      case 9 =>
      case 10 =>
      case 11 =>
      case _ =>
    }
  }

  lemma MagicsRowHigh(i: nat)
    requires 13 <= i < 19
    ensures Row(MAGICS, Q64, MAGICS_ONES, MAGICS_NEED, i, true)
  {
    match i {
      case 13 =>
      case 14 =>
      case 15 =>
      case 16 =>
      case 17 =>
      case _ =>
    }
  }

  lemma MagicsCertified()
    ensures Certified(MAGICS, Q64, MAGICS_ONES, MAGICS_NEED, true)
  {
    forall i: nat | i < BITS
      ensures Row(MAGICS, Q64, MAGICS_ONES, MAGICS_NEED, i, true)
    {
      if i < 7 { MagicsRowLow(i); } else if i < 13 { MagicsRowMid(i); } else { MagicsRowHigh(i); }
    }
  }

  lemma NegativeRowLow(i: nat)
    requires 0 <= i < 7
    ensures Row(NEGATIVE, Q64, NEGATIVE_ONES, NEGATIVE_NEED, i, true)
  {
    match i {
      case 0 =>
      case 1 =>
      case 2 =>
      case 3 =>
      case 4 =>
      case 5 =>
      case _ =>
    }
  }

  lemma NegativeRowMid(i: nat)
    requires 7 <= i < 13
    ensures Row(NEGATIVE, Q64, NEGATIVE_ONES, NEGATIVE_NEED, i, true)
  {
    match i {
      case 7 =>
      case 8 =>
      case 9 =>
      case 10 =>
      case 11 =>
      case _ =>
    }
  }

  lemma NegativeRowHigh(i: nat)
    requires 13 <= i < 19
    ensures Row(NEGATIVE, Q64, NEGATIVE_ONES, NEGATIVE_NEED, i, true)
  {
    match i {
      case 13 =>
      case 14 =>
      case 15 =>
      case 16 =>
      case 17 =>
      case _ =>
    }
  }

  lemma NegativeCertified()
    ensures Certified(NEGATIVE, Q64, NEGATIVE_ONES, NEGATIVE_NEED, true)
  {
    forall i: nat | i < BITS
      ensures Row(NEGATIVE, Q64, NEGATIVE_ONES, NEGATIVE_NEED, i, true)
    {
      if i < 7 { NegativeRowLow(i); } else if i < 13 { NegativeRowMid(i); } else { NegativeRowHigh(i); }
    }
  }

  lemma PositiveRowLow(i: nat)
    requires 0 <= i < 7
    ensures Row(POSITIVE, Q96, POSITIVE_ONES, POSITIVE_NEED, i, false)
  {
    match i {
      case 0 =>
      case 1 =>
      case 2 =>
      case 3 =>
      case 4 =>
      case 5 =>
      case _ =>
    }
  }

  lemma PositiveRowMid(i: nat)
    requires 7 <= i < 13
    ensures Row(POSITIVE, Q96, POSITIVE_ONES, POSITIVE_NEED, i, false)
  {
    match i {
      case 7 =>
      case 8 =>
      case 9 =>
      case 10 =>
      case 11 =>
      case _ =>
    }
  }

  lemma PositiveRowHigh(i: nat)
    requires 13 <= i < 19
    ensures Row(POSITIVE, Q96, POSITIVE_ONES, POSITIVE_NEED, i, false)
  {
    match i {
      case 13 =>
      case 14 =>
      case 15 =>
      case 16 =>
      case 17 =>
      case _ =>
    }
  }

  lemma PositiveCertified()
    ensures Certified(POSITIVE, Q96, POSITIVE_ONES, POSITIVE_NEED, false)
  {
    forall i: nat | i < BITS
      ensures Row(POSITIVE, Q96, POSITIVE_ONES, POSITIVE_NEED, i, false)
    {
      if i < 7 { PositiveRowLow(i); } else if i < 13 { PositiveRowMid(i); } else { PositiveRowHigh(i); }
    }
  }

  // ---- the folds at the tick bounds, bit by bit ----

  /** MAX_TICK shifted right by 0, 1, ..., 19. */
  ghost const EDGE_BITS: seq<nat> := [
    443636, 221818, 110909, 55454, 27727, 13863, 6931, 3465,
    1732, 866, 433, 216, 108, 54, 27, 13,
    6, 3, 1, 0]

  /** acc[i] is the accumulator before bit i of MAX_TICK. */
  ghost predicate EdgeTrace(t: seq<nat>, unit: nat, acc: seq<nat>) {
    && |t| == BITS && |acc| == BITS + 1
    && acc[0] == unit
    && forall i: nat :: i < BITS ==> EdgeRow(t[i], unit, EDGE_BITS[i], EDGE_BITS[i + 1], acc[i], acc[i + 1])
  }

  predicate EdgeRow(m: nat, unit: nat, bits: nat, rest: nat, before: nat, after: nat) {
    && rest == bits / 2
    && (if bits % 2 == 1 then after * unit <= before * m < after * unit + unit else after == before)
  }

  ghost const MAGICS_EDGE: seq<nat> := [
    18446744073709551616, 18446744073709551616, 18446744073709551616, 18443055278223355904,
    18443055278223355904, 18428307471288122970, 18398847226801874084, 18340067951587048657,
    18223072152272633034, 18223072152272633034, 18223072152272633034, 17313578044588124205,
    17313578044588124205, 17313578044588124205, 17313578044588124205, 7631863196528592884,
    1482921196046239949, 1482921196046239949, 2113820261058665, 4295048016]

  ghost const NEGATIVE_EDGE: seq<nat> := [
    18446744073709551616, 18446744073709551616, 18446744073709551616, 18443055278223354162,
    18443055278223354162, 18428307471288117479, 18398847226801858501, 18340067951587015306,
    18223072152272561885, 18223072152272561885, 18223072152272561885, 17313578044587773368,
    17313578044587773368, 17313578044587773368, 17313578044587773368, 7631863196526440527,
    1482921196045045371, 1482921196045045371, 2113820261052536, 4295048016]

  ghost const POSITIVE_EDGE: seq<nat> := [
    79228162514264337593543950336, 79228162514264337593543950336, 79228162514264337593543950336,
    79244008939048815603706035061, 79244008939048815603706035061, 79307426338960776842885539843,
    79434413434441317004961661155, 79688997946402660867703038957, 80200617388689977366536547152,
    80200617388689977366536547152, 80200617388689977366536547152, 84413610726049114366347414816,
    84413610726049114366347414816, 84413610726049114366347414816, 84413610726049114366347414816,
    191499978405809145203445059952, 985555834813563612221638545219, 985555834813563612221638545219,
    691402984567465602855604295835822, 340275971719517849884101479037289023427]

  lemma MagicsEdgeRowLow(i: nat)
    requires 0 <= i < 7
    ensures EdgeRow(MAGICS[i], Q64, EDGE_BITS[i], EDGE_BITS[i + 1], MAGICS_EDGE[i], MAGICS_EDGE[i + 1])
  {
    match i {
      case 0 =>
      case 1 =>
      case 2 =>
      case 3 =>
      case 4 =>
      case 5 =>
      case _ =>
    }
  }

  lemma MagicsEdgeRowMid(i: nat)
    requires 7 <= i < 13
    ensures EdgeRow(MAGICS[i], Q64, EDGE_BITS[i], EDGE_BITS[i + 1], MAGICS_EDGE[i], MAGICS_EDGE[i + 1])
  {
    match i {
      case 7 =>
      case 8 =>
      case 9 =>
      case 10 =>
      case 11 =>
      case _ =>
    }
  }

  lemma MagicsEdgeRowHigh(i: nat)
    requires 13 <= i < 19
    ensures EdgeRow(MAGICS[i], Q64, EDGE_BITS[i], EDGE_BITS[i + 1], MAGICS_EDGE[i], MAGICS_EDGE[i + 1])
  {
    match i {
      case 13 =>
      case 14 =>
      case 15 =>
      case 16 =>
      case 17 =>
      case _ =>
    }
  }

  lemma MagicsEdge()
    ensures EdgeTrace(MAGICS, Q64, MAGICS_EDGE)
  {
    forall i: nat | i < BITS
      ensures EdgeRow(MAGICS[i], Q64, EDGE_BITS[i], EDGE_BITS[i + 1], MAGICS_EDGE[i], MAGICS_EDGE[i + 1])
    {
      if i < 7 { MagicsEdgeRowLow(i); } else if i < 13 { MagicsEdgeRowMid(i); } else { MagicsEdgeRowHigh(i); }
    }
  }

  lemma NegativeEdgeRowLow(i: nat)
    requires 0 <= i < 7
    ensures EdgeRow(NEGATIVE[i], Q64, EDGE_BITS[i], EDGE_BITS[i + 1], NEGATIVE_EDGE[i], NEGATIVE_EDGE[i + 1])
  {
    match i {
      case 0 =>
      case 1 =>
      case 2 =>
      case 3 =>
      case 4 =>
      case 5 =>
      case _ =>
    }
  }

  lemma NegativeEdgeRowMid(i: nat)
    requires 7 <= i < 13
    ensures EdgeRow(NEGATIVE[i], Q64, EDGE_BITS[i], EDGE_BITS[i + 1], NEGATIVE_EDGE[i], NEGATIVE_EDGE[i + 1])
  {
    match i {
      case 7 =>
      case 8 =>
      case 9 =>
      case 10 =>
      case 11 =>
      case _ =>
    }
  }

  lemma NegativeEdgeRowHigh(i: nat)
    requires 13 <= i < 19
    ensures EdgeRow(NEGATIVE[i], Q64, EDGE_BITS[i], EDGE_BITS[i + 1], NEGATIVE_EDGE[i], NEGATIVE_EDGE[i + 1])
  {
    match i {
      case 13 =>
      case 14 =>
      case 15 =>
      case 16 =>
      case 17 =>
      case _ =>
    }
  }

  lemma NegativeEdge()
    ensures EdgeTrace(NEGATIVE, Q64, NEGATIVE_EDGE)
  {
    forall i: nat | i < BITS
      ensures EdgeRow(NEGATIVE[i], Q64, EDGE_BITS[i], EDGE_BITS[i + 1], NEGATIVE_EDGE[i], NEGATIVE_EDGE[i + 1])
    {
      if i < 7 { NegativeEdgeRowLow(i); } else if i < 13 { NegativeEdgeRowMid(i); } else { NegativeEdgeRowHigh(i); }
    }
  }

  lemma PositiveEdgeRowLow(i: nat)
    requires 0 <= i < 7
    ensures EdgeRow(POSITIVE[i], Q96, EDGE_BITS[i], EDGE_BITS[i + 1], POSITIVE_EDGE[i], POSITIVE_EDGE[i + 1])
  {
    match i {
      case 0 =>
      case 1 =>
      case 2 =>
      case 3 =>
      case 4 =>
      case 5 =>
      case _ =>
    }
  }

  lemma PositiveEdgeRowMid(i: nat)
    requires 7 <= i < 13
    ensures EdgeRow(POSITIVE[i], Q96, EDGE_BITS[i], EDGE_BITS[i + 1], POSITIVE_EDGE[i], POSITIVE_EDGE[i + 1])
  {
    match i {
      case 7 =>
      case 8 =>
      case 9 =>
      case 10 =>
      case 11 =>
      case _ =>
    }
  }

  lemma PositiveEdgeRowHigh(i: nat)
    requires 13 <= i < 19
    ensures EdgeRow(POSITIVE[i], Q96, EDGE_BITS[i], EDGE_BITS[i + 1], POSITIVE_EDGE[i], POSITIVE_EDGE[i + 1])
  {
    match i {
      case 13 =>
      case 14 =>
      case 15 =>
      case 16 =>
      case 17 =>
      case _ =>
    }
  }

  lemma PositiveEdge()
    ensures EdgeTrace(POSITIVE, Q96, POSITIVE_EDGE)
  {
    forall i: nat | i < BITS
      ensures EdgeRow(POSITIVE[i], Q96, EDGE_BITS[i], EDGE_BITS[i + 1], POSITIVE_EDGE[i], POSITIVE_EDGE[i + 1])
    {
      if i < 7 { PositiveEdgeRowLow(i); } else if i < 13 { PositiveEdgeRowMid(i); } else { PositiveEdgeRowHigh(i); }
    }
  }
}
