/**
 Selected powers of the multiplier 16807 modulo 2^31 - 1, evaluated by repeated
 multiplication: the exponents are M - 1 and (M - 1) / q for its prime divisors q.
 */
module PowerTable {
  import opened Bits
  import opened RandomNumbers

  const N: nat := M - 1

  ghost const PRIMES: set<nat> := {2, 3, 7, 11, 31, 151, 331}

  /** Always true; mentioning it asks for the addition law at these exponents. */
  ghost predicate Added(i: nat, j: nat) {
    true
  }

  /** The laws of A^n modulo M.  The evaluations below see nothing else of the power function. */
  ghost predicate Exponential(f: nat -> nat) {
    f(1) == A && forall i: nat, j: nat {:trigger Added(i, j)} :: f(i + j) == f(i) * f(j) % M
  }

  /** One product, with the quotient of its reduction given. */
  lemma Mul(f: nat -> nat, i: nat, a: nat, j: nat, b: nat, q: nat, c: nat)
    requires Exponential(f) && f(i) == a && f(j) == b && a * b == q * 0x7fff_ffff + c && c < 0x7fff_ffff
    ensures f(i + j) == c
  {
    assert Added(i, j);
    DivUnique(a * b, M, q, c);
  }

  lemma Squarings(f: nat -> nat)
    requires Exponential(f)
    ensures f(1) == 16807 && f(2) == 282475249 && f(4) == 984943658 && f(8) == 1457850878
    ensures f(16) == 1137522503 && f(32) == 1636807826 && f(64) == 685118024 && f(128) == 515204530
    ensures f(256) == 897054849 && f(512) == 2038299453 && f(1024) == 1836275591 && f(2048) == 349037107
    ensures f(4096) == 149796865 && f(8192) == 1186652285 && f(16384) == 2106880871
  {
    Mul(f, 1, 16807, 1, 16807, 0, 282475249);
    Mul(f, 2, 282475249, 2, 282475249, 37156169, 984943658);
    Mul(f, 4, 984943658, 4, 984943658, 451744538, 1457850878);
    Mul(f, 8, 1457850878, 8, 1457850878, 989683523, 1137522503);
    Mul(f, 16, 1137522503, 16, 1137522503, 602545889, 1636807826);
    Mul(f, 32, 1636807826, 32, 1636807826, 1247571716, 685118024);
    Mul(f, 64, 685118024, 64, 685118024, 218575218, 515204530);
    Mul(f, 128, 515204530, 128, 515204530, 123603133, 897054849);
    Mul(f, 256, 897054849, 256, 897054849, 374721084, 2038299453);
    Mul(f, 512, 2038299453, 512, 2038299453, 1934666494, 1836275591);
    Mul(f, 1024, 1836275591, 1024, 1836275591, 1570167042, 349037107);
    Mul(f, 2048, 349037107, 2048, 349037107, 56730072, 149796865);
    Mul(f, 4096, 149796865, 4096, 149796865, 10449020, 1186652285);
    Mul(f, 8192, 1186652285, 8192, 1186652285, 655717982, 2106880871);
  }

  lemma HighSquarings(f: nat -> nat)
    requires Exponential(f)
    ensures f(32768) == 877809922 && f(65536) == 1682791109 && f(131072) == 1900685356 && f(262144) == 2080563572
    ensures f(524288) == 612544882 && f(1048576) == 1295048709 && f(2097152) == 1987420232 && f(4194304) == 868966365
    ensures f(8388608) == 1331238991 && f(16777216) == 1550655590 && f(33554432) == 766698560 && f(67108864) == 1154667137
    ensures f(134217728) == 901595110 && f(268435456) == 1008653149 && f(536870912) == 1821072732
  {
    Squarings(f);
    Mul(f, 16384, 2106880871, 16384, 2106880871, 2067045777, 877809922);
    Mul(f, 32768, 877809922, 32768, 877809922, 358815425, 1682791109);
    Mul(f, 65536, 1682791109, 65536, 1682791109, 1318653075, 1900685356);
    Mul(f, 131072, 1900685356, 131072, 1900685356, 1682250212, 2080563572);
    Mul(f, 262144, 2080563572, 262144, 2080563572, 2015728866, 612544882);
    Mul(f, 524288, 612544882, 524288, 612544882, 174721345, 1295048709);
    Mul(f, 1048576, 1295048709, 1048576, 1295048709, 780984367, 1987420232);
    Mul(f, 2097152, 1987420232, 2097152, 1987420232, 1839287197, 868966365);
    Mul(f, 4194304, 868966365, 4194304, 868966365, 351622022, 1331238991);
    Mul(f, 8388608, 1331238991, 8388608, 1331238991, 825243653, 1550655590);
    Mul(f, 16777216, 1550655590, 16777216, 1550655590, 1119697820, 766698560);
    Mul(f, 33554432, 766698560, 33554432, 766698560, 273728129, 1154667137);
    Mul(f, 67108864, 1154667137, 67108864, 1154667137, 620845797, 901595110);
    Mul(f, 134217728, 901595110, 134217728, 901595110, 378523833, 1008653149);
    Mul(f, 268435456, 1008653149, 268435456, 1008653149, 473755027, 1821072732);
  }

  lemma LowThird(f: nat -> nat)
    requires Exponential(f)
    ensures f(21845) == 1283266847
  {
    Squarings(f);
    Mul(f, 1, 16807, 4, 984943658, 7708, 1144108930);
    Mul(f, 5, 1144108930, 16, 1137522503, 606034721, 896544303);
    Mul(f, 21, 896544303, 64, 685118024, 286027165, 1864546517);
    Mul(f, 85, 1864546517, 256, 897054849, 778865299, 1442645480);
    Mul(f, 341, 1442645480, 1024, 1836275591, 1233580840, 237955200);
    Mul(f, 1365, 237955200, 4096, 149796865, 16598470, 80227910);
    Mul(f, 5461, 80227910, 16384, 2106880871, 78711029, 1283266847);
  }

  lemma PowersOver2And3(f: nat -> nat)
    requires Exponential(f)
    ensures f(2147483646) == 1 && f(1073741823) == 2147483646 && f(715827882) == 634005911
  {
    HighSquarings(f);
    LowThird(f);
    Mul(f, 21845, 1283266847, 65536, 1682791109, 1005581599, 1029451770);
    Mul(f, 87381, 1029451770, 262144, 2080563572, 997371903, 123152199);
    Mul(f, 349525, 123152199, 1048576, 1295048709, 74267432, 600776587);
    Mul(f, 1398101, 600776587, 4194304, 868966365, 243100639, 154745822);
    Mul(f, 5592405, 154745822, 16777216, 1550655590, 111738906, 544774798);
    Mul(f, 22369621, 544774798, 67108864, 1154667137, 292916575, 1568664301);
    Mul(f, 89478485, 1568664301, 268435456, 1008653149, 736787071, 634005912);
    Mul(f, 357913941, 634005912, 357913941, 634005912, 187178839, 634005911);
    Mul(f, 715827882, 634005911, 357913941, 634005912, 187178838, 2147483646);
    Mul(f, 1073741823, 2147483646, 1073741823, 2147483646, 2147483645, 1);
  }

  lemma PowerOver7(f: nat -> nat)
    requires Exponential(f)
    ensures f(306783378) == 1600955193
  {
    Squarings(f);
    HighSquarings(f);
    Mul(f, 2, 282475249, 16, 1137522503, 149627194, 16531729);
    Mul(f, 18, 16531729, 128, 515204530, 3966140, 877819790);
    Mul(f, 146, 877819790, 1024, 1836275591, 750608301, 1973792143);
    Mul(f, 1170, 1973792143, 8192, 1186652285, 1090674175, 1588280530);
    Mul(f, 9362, 1588280530, 65536, 1682791109, 1244593577, 713072451);
    Mul(f, 74898, 713072451, 524288, 612544882, 203395672, 864669998);
    Mul(f, 599186, 864669998, 4194304, 868966365, 349883523, 1089368889);
    Mul(f, 4793490, 1089368889, 33554432, 766698560, 388928483, 1410082339);
    Mul(f, 38347922, 1410082339, 268435456, 1008653149, 662302594, 1600955193);
  }

  lemma PowerOver11(f: nat -> nat)
    requires Exponential(f)
    ensures f(195225786) == 298192073
  {
    Squarings(f);
    HighSquarings(f);
    Mul(f, 2, 282475249, 8, 1457850878, 191762479, 2007237709);
    Mul(f, 10, 2007237709, 16, 1137522503, 1063234202, 1131570933);
    Mul(f, 26, 1131570933, 32, 1636807826, 862481146, 1927702196);
    Mul(f, 58, 1927702196, 128, 515204530, 462476585, 462242385);
    Mul(f, 186, 462242385, 2048, 349037107, 75129673, 621222764);
    Mul(f, 2234, 621222764, 8192, 1186652285, 343274051, 1432671743);
    Mul(f, 10426, 1432671743, 16384, 2106880871, 1405584016, 904341801);
    Mul(f, 26810, 904341801, 32768, 877809922, 369660652, 687791678);
    Mul(f, 59578, 687791678, 131072, 1900685356, 608747625, 515678993);
    Mul(f, 190650, 515678993, 2097152, 1987420232, 477242686, 70230534);
    Mul(f, 2287802, 70230534, 8388608, 1331238991, 43536361, 1922162627);
    Mul(f, 10676410, 1922162627, 16777216, 1550655590, 1387955725, 249105855);
    Mul(f, 27453626, 249105855, 33554432, 766698560, 88936230, 765237990);
    Mul(f, 61008058, 765237990, 134217728, 901595110, 321275941, 298192073);
  }

  lemma PowerOver31(f: nat -> nat)
    requires Exponential(f)
    ensures f(69273666) == 16384
  {
    Squarings(f);
    HighSquarings(f);
    Mul(f, 2, 282475249, 64, 685118024, 90118909, 1060806853);
    Mul(f, 66, 1060806853, 2048, 349037107, 172416193, 111398400);
    Mul(f, 2114, 111398400, 65536, 1682791109, 87292975, 766345775);
    Mul(f, 67650, 766345775, 2097152, 1987420232, 709225935, 501934855);
    Mul(f, 2164802, 501934855, 67108864, 1154667137, 269882233, 16384);
  }

  lemma PowerOver151(f: nat -> nat)
    requires Exponential(f)
    ensures f(14221746) == 1013763951
  {
    Squarings(f);
    HighSquarings(f);
    Mul(f, 2, 282475249, 16, 1137522503, 149627194, 16531729);
    Mul(f, 18, 16531729, 32, 1636807826, 12600451, 937186357);
    Mul(f, 50, 937186357, 128, 515204530, 224841133, 290145159);
    Mul(f, 178, 290145159, 256, 897054849, 121200513, 2119315080);
    Mul(f, 434, 2119315080, 65536, 1682791109, 1660717919, 461253127);
    Mul(f, 65970, 461253127, 524288, 612544882, 131567121, 1419975727);
    Mul(f, 590258, 1419975727, 1048576, 1295048709, 856322111, 2125667626);
    Mul(f, 1638834, 2125667626, 4194304, 868966365, 860138643, 168128469);
    Mul(f, 5833138, 168128469, 8388608, 1331238991, 104223924, 1013763951);
  }

  lemma PowerOver331(f: nat -> nat)
    requires Exponential(f)
    ensures f(6487866) == 759513457
  {
    Squarings(f);
    HighSquarings(f);
    Mul(f, 2, 282475249, 8, 1457850878, 191762479, 2007237709);
    Mul(f, 10, 2007237709, 16, 1137522503, 1063234202, 1131570933);
    Mul(f, 26, 1131570933, 32, 1636807826, 862481146, 1927702196);
    Mul(f, 58, 1927702196, 256, 897054849, 805246924, 1262696576);
    Mul(f, 314, 1262696576, 512, 2038299453, 1198497480, 895063368);
    Mul(f, 826, 895063368, 1024, 1836275591, 765352982, 2028965134);
    Mul(f, 1850, 2028965134, 2048, 349037107, 329773929, 840788275);
    Mul(f, 3898, 840788275, 4096, 149796865, 58648850, 1433401925);
    Mul(f, 7994, 1433401925, 8192, 1186652285, 792066413, 369200414);
    Mul(f, 16186, 369200414, 16384, 2106880871, 362219889, 1576225411);
    Mul(f, 32570, 1576225411, 32768, 877809922, 644301206, 1456949660);
    Mul(f, 65338, 1456949660, 131072, 1900685356, 1289510580, 7693700);
    Mul(f, 196410, 7693700, 2097152, 1987420232, 7120247, 1043837591);
    Mul(f, 2293562, 1043837591, 4194304, 868966365, 422382614, 759513457);
  }

  lemma PrimeExponents(f: nat -> nat, q: nat)
    requires Exponential(f) && q in PRIMES
    ensures f(N / q) != 1
  {
    if q <= 3 {
      PowersOver2And3(f);
    } else if q == 7 {
      PowerOver7(f);
    } else if q == 11 {
      PowerOver11(f);
    } else if q == 31 {
      PowerOver31(f);
    } else if q == 151 {
      PowerOver151(f);
    } else {
      PowerOver331(f);
    }
  }
}
