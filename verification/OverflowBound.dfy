/** The bound checked by __check_for_overflow on 64-bit targets, 2^64 - 59, is prime.
    The proof is a certificate: chains of powers of two, two exponent bits a line,
    checked against Pocklington's criterion. */
module OverflowBound {
  import opened Primality

  const LIMIT: nat := 0xFFFFFFFFFFFFFFC5

  // Trial division up to the square root, eight candidates at a time.
  predicate NoDivisorFrom(n: nat, d: nat)
    requires d >= 2
    decreases n - d
  {
    n < d * d || (
      && NotDivisor(d, n) && NotDivisor(d + 1, n) && NotDivisor(d + 2, n) && NotDivisor(d + 3, n)
      && NotDivisor(d + 4, n) && NotDivisor(d + 5, n) && NotDivisor(d + 6, n) && NotDivisor(d + 7, n)
      && (d < n ==> NoDivisorFrom(n, d + 8)))
  }

  predicate NotDivisor(d: nat, n: nat)
    requires d > 0
  {
    d < n ==> n % d != 0
  }

  lemma {:induction false} NoDivisorFromSound(n: nat, d: nat, k: nat)
    requires d >= 2 && NoDivisorFrom(n, d) && d <= k < n && k * k <= n
    ensures !Divides(k, n)
    decreases n - d
  {
    MulMono(d, d, k);
    MulMono(k, d, k);
    if k >= d + 8 {
      NoDivisorFromSound(n, d + 8, k);
    }
  }

  lemma TrialDivision(n: nat)
    requires n >= 2 && NoDivisorFrom(n, 2)
    ensures IsPrime(n)
  {
    forall d | 2 <= d < n
      ensures !Divides(d, n)
    {
      if Divides(d, n) {
        var k := Cofactor(n, d);
        if d <= k {
          MulMono(d, d, k);
          NoDivisorFromSound(n, 2, d);
        } else {
          MulMono(k, k, d);
          NoDivisorFromSound(n, 2, k);
        }
      }
    }
  }

  // ----- Powers of two, two bits of the exponent at a time

  lemma SmallPowerOfTwo(d: nat, m: nat)
    requires d < 4 && m > 8
    ensures Pow(2, d, m) == if d == 0 then 1 else if d == 1 then 2 else if d == 2 then 4 else 8
  {
    assert Pow(2, 1, m) == 2;
    assert Pow(2, 2, m) == 4;
  }

  lemma PowDouble(a: nat, e: nat, m: nat)
    requires m > 1
    ensures Pow(a, 2 * e, m) == (Pow(a, e, m) * Pow(a, e, m)) % m
  {
    PowAdd(a, e, e, m);
  }

  ghost predicate PowerOfTwo(e: nat, m: nat, r: nat)
  {
    m > 8 && Pow(2, e, m) == r
  }

  lemma FirstDigit(m: nat)
    requires m > 8
    ensures PowerOfTwo(0, m, 1)
  {
  }

  // Two binary digits d of the exponent: h^4 * 2^d is congruent to r, with quotient k.
  lemma TwoDigits(e: nat, m: nat, h: nat, d: nat, k: nat, r: nat)
    requires PowerOfTwo(e, m, h) && d < 4 && r < m
    requires h * h * h * h * (if d == 0 then 1 else if d == 1 then 2 else if d == 2 then 4 else 8) == m * k + r
    ensures PowerOfTwo(4 * e + d, m, r)
  {
    var p := if d == 0 then 1 else if d == 1 then 2 else if d == 2 then 4 else 8;
    assert Pow(2, 4 * e, m) == (h * h * h * h) % m by {
      PowDouble(2, e, m);
      PowDouble(2, 2 * e, m);
      FourthPower(h, m);
    }
    PowAdd(2, 4 * e, d, m);
    SmallPowerOfTwo(d, m);
    ScaledRemainder(h * h * h * h, p, m, k, r);
  }

  lemma FourthPower(h: nat, m: nat)
    requires m > 0
    ensures (((h * h) % m) * ((h * h) % m)) % m == (h * h * h * h) % m
  {
    ModMul(h * h, h * h, m);
    assert (h * h) * (h * h) == h * h * h * h;
  }

  lemma ScaledRemainder(x: nat, p: nat, m: nat, k: nat, r: nat)
    requires r < m && x * p == m * k + r
    ensures MulMod(x % m, p, m) == r
  {
    ModMul(p, x, m);
    assert p * x == x * p && p * (x % m) == (x % m) * p;
    DivModUnique(x * p, m, k, r);
  }

  // ----- The certificate

  lemma Fermat5594472617641()
    ensures PowerOfTwo(5594472617640, 5594472617641, 1)
  {
    hide PowerOfTwo;
    FirstDigit(5594472617641);
    TwoDigits(0, 5594472617641, 1, 1, 0, 2);
    TwoDigits(1, 5594472617641, 2, 1, 0, 32);
    TwoDigits(5, 5594472617641, 32, 0, 0, 1048576);
    TwoDigits(20, 5594472617641, 1048576, 1, 432185802752, 7864320);
    TwoDigits(81, 5594472617641, 7864320, 1, 1367462891520000, 24883200000);
    TwoDigits(325, 5594472617641, 24883200000, 2, 274110555504982853827364794964, 741665640076);
    TwoDigits(1302, 5594472617641, 741665640076, 2, 216338331871014324524377495855028108, 1031896035476);
    TwoDigits(5210, 5594472617641, 1031896035476, 1, 405335478611023123158656797421500720, 1084524446032);
    TwoDigits(20841, 5594472617641, 1084524446032, 0, 247285260372347951950557465819685680, 390648079696);
    TwoDigits(83364, 5594472617641, 390648079696, 0, 4162781565499682043303994970596212, 3407945261164);
    TwoDigits(333456, 5594472617641, 3407945261164, 2, 96443126438694797924462971213754320646, 4804989607178);
    TwoDigits(1333826, 5594472617641, 4804989607178, 0, 95281954710230961850969473229737297895, 3080566161);
    TwoDigits(5335304, 5594472617641, 3080566161, 3, 128781356862578891718888732, 1101589336716);
    TwoDigits(21341219, 5594472617641, 1101589336716, 1, 526441037676882302727614936786901260, 5519134069012);
    TwoDigits(85364877, 5594472617641, 5519134069012, 2, 663413973061175981510105352189801952142, 2326208857922);
    TwoDigits(341459510, 5594472617641, 2326208857922, 1, 10468046995028582157062076277544352389, 3304571207763);
    TwoDigits(1365838041, 5594472617641, 3304571207763, 1, 42631567522388801716353004404094813350, 1178529413772);
    TwoDigits(5463352165, 5594472617641, 1178529413772, 2, 1379312091302193529166886099248967775, 4397932178249);
    TwoDigits(21853408662, 5594472617641, 4397932178249, 2, 267482238836669466637480527503060383134, 4175666381110);
    TwoDigits(87413634650, 5594472617641, 4175666381110, 2, 217372204996760347720435497877908662790, 1483487361610);
    TwoDigits(349654538602, 5594472617641, 1483487361610, 2, 3462870429385958943119390453291472039, 1);
    TwoDigits(1398618154410, 5594472617641, 1, 0, 0, 1);
  }

  lemma Cofactor5594472617641By2131()
    ensures PowerOfTwo(2625280440, 5594472617641, 1346892610175)
  {
    hide PowerOfTwo;
    FirstDigit(5594472617641);
    TwoDigits(0, 5594472617641, 1, 2, 0, 4);
    TwoDigits(2, 5594472617641, 4, 1, 0, 512);
    TwoDigits(9, 5594472617641, 512, 3, 0, 549755813888);
    TwoDigits(39, 5594472617641, 549755813888, 0, 16327517994305251839144114201296896, 966367641600);
    TwoDigits(156, 5594472617641, 966367641600, 1, 311774334290055433860469298887500003, 1669394647077);
    TwoDigits(625, 5594472617641, 1669394647077, 3, 11106236081170534904198020788553322693, 4425055029115);
    TwoDigits(2503, 5594472617641, 4425055029115, 2, 274141978184958251538524100283716539349, 1923977546791);
    TwoDigits(10014, 5594472617641, 1923977546791, 2, 9797174343587503420174035437104114795, 4048906612449);
    TwoDigits(40058, 5594472617641, 4048906612449, 2, 192155083608346044711248257276026506207, 2301877063117);
    TwoDigits(160234, 5594472617641, 2301877063117, 1, 10036894170056417546097798619520217596, 520059518406);
    TwoDigits(640937, 5594472617641, 520059518406, 2, 52301366583263320100889242884191746, 1256209244398);
    TwoDigits(2563750, 5594472617641, 1256209244398, 1, 890263941210109485864411629459024262, 2599501432490);
    TwoDigits(10255001, 5594472617641, 2599501432490, 2, 32648338394923778631798078766148894747, 653995608173);
    TwoDigits(41020006, 5594472617641, 653995608173, 3, 261595435596503382974966135091871365, 4930394162363);
    TwoDigits(164080027, 5594472617641, 4930394162363, 2, 422500668906183813680079788294120342248, 4884966904476);
    TwoDigits(656320110, 5594472617641, 4884966904476, 0, 101785836565802999902128647190046273561, 1346892610175);
  }

  lemma Cofactor5594472617641By15331()
    ensures PowerOfTwo(364912440, 5594472617641, 1852426820963)
  {
    hide PowerOfTwo;
    FirstDigit(5594472617641);
    TwoDigits(0, 5594472617641, 1, 1, 0, 2);
    TwoDigits(1, 5594472617641, 2, 1, 0, 32);
    TwoDigits(5, 5594472617641, 32, 1, 0, 2097152);
    TwoDigits(21, 5594472617641, 2097152, 3, 27659891376128, 503316480);
    TwoDigits(87, 5594472617641, 503316480, 0, 11471110151507804197311, 42748796649);
    TwoDigits(348, 5594472617641, 42748796649, 0, 596947893479173353116579186057, 204240466864);
    TwoDigits(1392, 5594472617641, 204240466864, 0, 311034114614537082107257174920740, 2976073519676);
    TwoDigits(5568, 5594472617641, 2976073519676, 0, 14022177812809075703023960738442026040, 3660300668936);
    TwoDigits(22272, 5594472617641, 3660300668936, 1, 64170864192487501737881886827859554178, 4934792812334);
    TwoDigits(89089, 5594472617641, 4934792812334, 3, 848020846555080210279570468766146635020, 4335314277268);
    TwoDigits(356359, 5594472617641, 4335314277268, 3, 505141649961705197847473816757251494363, 772694486125);
    TwoDigits(1425439, 5594472617641, 772694486125, 0, 63719461983043250137427490971258710, 4216798237515);
    TwoDigits(5701756, 5594472617641, 4216798237515, 3, 452128747242636962733192883924042017523, 3228549481757);
    TwoDigits(22807027, 5594472617641, 3228549481757, 2, 77683829520540065747126896713082487293, 144282217791);
    TwoDigits(91228110, 5594472617641, 144282217791, 0, 77462602670929300862003874752878, 1852426820963);
  }

  lemma Prime2131()
    ensures IsPrime(2131)
  {
    TrialDivision(2131);
  }

  lemma Prime15331()
    ensures IsPrime(15331)
  {
    assert NoDivisorFrom(15331, 66);
    TrialDivision(15331);
  }

  lemma Prime5594472617641()
    ensures IsPrime(5594472617641)
  {
    hide Pow;
    Fermat5594472617641();
    assert OrdersMultipleOf(5594472617641, 2, 1);
    Prime2131();
    Prime15331();
    Cofactor5594472617641By2131();
    MultiplyFactor(5594472617641, 2, 1, 2131, 1933328135809);
    Cofactor5594472617641By15331();
    MultiplyFactor(5594472617641, 2, 2131, 15331, 3161697676777);
    Pocklington(5594472617641, 2, 32670361);
  }

  lemma Fermat18446744073709551557()
    ensures PowerOfTwo(18446744073709551556, 18446744073709551557, 1)
  {
    hide PowerOfTwo;
    FirstDigit(18446744073709551557);
    TwoDigits(0, 18446744073709551557, 1, 3, 0, 8);
    TwoDigits(3, 18446744073709551557, 8, 3, 0, 32768);
    TwoDigits(15, 18446744073709551557, 32768, 3, 0, 9223372036854775808);
    TwoDigits(63, 18446744073709551557, 9223372036854775808, 3,
      3138550867693340391956224535771517912327286701760654184737, 9223372036860834459);
    TwoDigits(255, 18446744073709551557, 9223372036860834459, 3,
      3138550867701587000366744304319683382976119866168292406452, 808262516834776324);
    TwoDigits(1023, 18446744073709551557, 808262516834776324, 3,
      185088748948707912496108895529470632339814857087908489, 3343033315822585235);
    TwoDigits(4095, 18446744073709551557, 3343033315822585235, 3,
      54166787976897154054724791978723024125947792247064895849, 16482096517517618107);
    TwoDigits(16383, 18446744073709551557, 16482096517517618107, 3,
      32005165440529497096257591713180798794950367687329956973482, 5551234557778193334);
    TwoDigits(65535, 18446744073709551557, 5551234557778193334, 3,
      411840048921025346060489974943582247662514224522413441482, 1297214808304345614);
    TwoDigits(262143, 18446744073709551557, 1297214808304345614, 3,
      1228055106407417643032418926499766547523515557904299233, 12013744823476576347);
    TwoDigits(1048575, 18446744073709551557, 12013744823476576347, 3,
      9034078854604531463390191093783752002620406588463102665164, 4948573683993493900);
    TwoDigits(4194303, 18446744073709551557, 4948573683993493900, 3,
      260070102944100088177504069649366331323304131232767805227, 15851729483509411561);
    TwoDigits(16777215, 18446744073709551557, 15851729483509411561, 3,
      27382738166791597812540890024953756677190862400507025530440, 15154970907579679648);
    TwoDigits(67108863, 18446744073709551557, 15154970907579679648, 3,
      22876558595270190208866544757976972948871003873435329409402, 3341472985547990814);
    TwoDigits(268435455, 18446744073709551557, 3341472985547990814, 3,
      54065731340571749610520462095020537564042284124526708416, 2835537100587790016);
    TwoDigits(1073741823, 18446744073709551557, 2835537100587790016, 3,
      28035712686336432977385996113087380470220468204841718062, 13628203148164281754);
    TwoDigits(4294967295, 18446744073709551557, 13628203148164281754, 3,
      14959761145421357818241024038448478106232168851529399586311, 5455891710765089821);
    TwoDigits(17179869183, 18446744073709551557, 5455891710765089821, 3,
      384267125543222700046762826257737295461925537861419162660, 828920177477423828);
    TwoDigits(68719476735, 18446744073709551557, 828920177477423828, 3,
      204748679604451263345342328741598589890979495924303368, 10153672400594496472);
    TwoDigits(274877906943, 18446744073709551557, 10153672400594496472, 3,
      4609595883946758569033052318843538532871249434468613771941, 14677469391228079111);
    TwoDigits(1099511627775, 18446744073709551557, 14677469391228079111, 3,
      20126812369651597817346323809721055980076975084265961445399, 3507592251858688085);
    TwoDigits(4398046511103, 18446744073709551557, 3507592251858688085, 3,
      65645758808090358992155471416710691591608292926622552095, 12840471350872743085);
    TwoDigits(17592186044415, 18446744073709551557, 12840471350872743085, 3,
      11789465864204253748985864109920738981991503246157468803383, 14871446800719087669);
    TwoDigits(70368744177663, 18446744073709551557, 14871446800719087669, 3,
      21212074897792872239107489554717338704883033197743238057094, 13750443415860450410);
    TwoDigits(281474976710655, 18446744073709551557, 13750443415860450410, 3,
      15503761452344068143663724842493307093475489116189472479425, 462407798801665275);
    TwoDigits(1125899906842623, 18446744073709551557, 462407798801665275, 3,
      19827632693219725280660742789582207532488554304059548, 8232201345549008764);
    TwoDigits(4503599627370495, 18446744073709551557, 8232201345549008764, 3,
      1991747131782394615401481781750773739989680361904136575462, 5645012118200532994);
    TwoDigits(18014398509481983, 18446744073709551557, 5645012118200532994, 3,
      440382222353686463897308406059890117617760233532121334904, 10094512913656268840);
    TwoDigits(72057594037927935, 18446744073709551557, 10094512913656268840, 3,
      4503101502410213156490525093285905781067937297576586108135, 13172205404915263805);
    TwoDigits(288230376151711743, 18446744073709551557, 13172205404915263805, 0,
      1631977831600018571952278521220111475610749968271766401207, 4904465323524371326);
    TwoDigits(1152921504606846972, 18446744073709551557, 4904465323524371326, 1,
      62730239575247551407448824142269553013111111245506820623, 2296021864060584341);
    TwoDigits(4611686018427387889, 18446744073709551557, 2296021864060584341, 0,
      1506552792924147583630462623747376716147443335359863280, 1);
  }

  lemma Cofactor18446744073709551557By5594472617641()
    ensures PowerOfTwo(3297316, 18446744073709551557, 11493017446059487016)
  {
    hide PowerOfTwo;
    FirstDigit(18446744073709551557);
    TwoDigits(0, 18446744073709551557, 1, 3, 0, 8);
    TwoDigits(3, 18446744073709551557, 8, 0, 0, 4096);
    TwoDigits(12, 18446744073709551557, 4096, 2, 0, 1125899906842624);
    TwoDigits(50, 18446744073709551557, 1125899906842624, 1, 174224571863520493850487043983683461263872, 105154048);
    TwoDigits(201, 18446744073709551557, 105154048, 1, 13256053762432, 7961574084174254208);
    TwoDigits(805, 18446744073709551557, 7961574084174254208, 0,
      217809109861923554095090692063218709155375526874048593935, 15207024341622358901);
    TwoDigits(3220, 18446744073709551557, 15207024341622358901, 0,
      2899060254904130707947761901519922302974256967215007721493, 3199590993540181000);
    TwoDigits(12880, 18446744073709551557, 3199590993540181000, 0,
      5681436277519546020931354703877855886473598054593188447, 15945028504836738021);
    TwoDigits(51520, 18446744073709551557, 15945028504836738021, 2,
      14016560912366114114913405107124732472171518324423003048863, 1929396281097936233);
    TwoDigits(206082, 18446744073709551557, 1929396281097936233, 1,
      1502436139447176617010805819433788250857092652928347454, 7387159903147361164);
    TwoDigits(824329, 18446744073709551557, 7387159903147361164, 0,
      161432241532590070674853013402124868521870201971556753400, 11493017446059487016);
  }

  lemma Prime18446744073709551557()
    ensures IsPrime(18446744073709551557)
  {
    hide Pow;
    Fermat18446744073709551557();
    assert OrdersMultipleOf(18446744073709551557, 2, 1);
    Prime5594472617641();
    Cofactor18446744073709551557By5594472617641();
    MultiplyFactor(18446744073709551557, 2, 1, 5594472617641, 1898613474652435203);
    Pocklington(18446744073709551557, 2, 5594472617641);
  }

  /** Every size that passes the overflow check has a prime at or above it that still fits. */
  lemma LimitIsPrime()
    ensures IsPrime(LIMIT)
  {
    Prime18446744073709551557();
  }
}
