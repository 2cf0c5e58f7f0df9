/** The constants of RFC 1321, section 3.4, checked against their definition there: element i of the table,
    counted from 1, is the integer part of 2^32 times the absolute value of the sine of i. */
module SineTable {
  import opened Bits
  import opened Rfc1321

  const UNIT: nat := 1_000_000_000_000_000_000

  /* The sines of n and n + 1 in units of 10^-18: from the sine of 1 on by
     sin (n + 1) = 2 cos 1 sin n - sin (n - 1), rounded down. */
  function Sines(n: nat): (int, int) {
    if n == 0 then (0, 841470984807896506)
    else
      var (a, b) := Sines(n - 1);
      (b, 1080604611736279434 * b / UNIT - a)
  }

  /* 2^32 times the absolute value of s, without its fraction. */
  function Scaled(s: int): int {
    (if s < 0 then 0 - s else s) * U32 / UNIT
  }

  predicate IsSine(i: nat)
    requires i < 64
  {
    Sine(i / 16, i % 16) == Scaled(Sines(i + 1).0)
  }

  /** All 64 constants are those of the standard. */
  lemma TableIsSines()
    ensures forall i :: 0 <= i < 64 ==> IsSine(i)
  {
    Rows1();
    Rows2();
    Rows3();
    Rows4();
    Rows5();
    Rows6();
    Rows7();
    Rows8();
  }

  lemma First()
    ensures Sines(1) == (841470984807896506, 909297426825681694)
  {
    assert Sines(0) == (0, 841470984807896506);
  }

  /* One row of the table: the sines s of i + 1 and next of i + 2. */
  lemma Row(i: nat, s: int, next: int)
    requires i < 64 && Sines(i + 1) == (s, next) && Sine(i / 16, i % 16) == Scaled(s)
    ensures IsSine(i) && Sines(i + 2) == (next, 1080604611736279434 * next / UNIT - s)
  {
  }

  lemma Rows1()
    ensures Sines(9) == (412118485241756565, -544021110889369818)
    ensures forall i :: 0 <= i < 8 ==> IsSine(i)
  {
    hide IsSine;
    First();
    hide Sines;
    Row(0, 841470984807896506, 909297426825681694);
    Row(1, 909297426825681694, 141120008059867220);
    Row(2, 141120008059867220, -756802495307928253);
    Row(3, -756802495307928253, -958924274663138468);
    Row(4, -958924274663138468, -279415498198925870);
    Row(5, -279415498198925870, 656986598718789092);
    Row(6, 656986598718789092, 989358246623381776);
    Row(7, 989358246623381776, 412118485241756565);
  }

  lemma Rows2()
    ensures Sines(17) == (-961397491879556859, -750987246771676098)
    ensures forall i :: 8 <= i < 16 ==> IsSine(i)
  {
    hide IsSine, Sines;
    Rows1();
    Row(8, 412118485241756565, -544021110889369818);
    Row(9, -544021110889369818, -999990206550703457);
    Row(10, -999990206550703457, -536572918000434967);
    Row(11, -536572918000434967, 420167036826640927);
    Row(12, 420167036826640927, 990607355694870308);
    Row(13, 990607355694870308, 650287840157116860);
    Row(14, 650287840157116860, -287903316665065302);
    Row(15, -287903316665065302, -961397491879556859);
  }

  lemma Rows3()
    ensures Sines(25) == (-132351750097773017, 762558450479602745)
    ensures forall i :: 16 <= i < 24 ==> IsSine(i)
  {
    hide IsSine, Sines;
    Rows2();
    Row(16, -961397491879556859, -750987246771676098);
    Row(17, -750987246771676098, 149877209662952338);
    Row(18, 149877209662952338, 912945250727627657);
    Row(19, 912945250727627657, 836655638536056025);
    Row(20, 836655638536056025, -8851309290403887);
    Row(21, -8851309290403887, -846220404175170641);
    Row(22, -846220404175170641, -905578362006623840);
    Row(23, -905578362006623840, -132351750097773017);
  }

  lemma Rows4()
    ensures Sines(33) == (999911860107267146, 529082686120023806)
    ensures forall i :: 24 <= i < 32 ==> IsSine(i)
  {
    hide IsSine, Sines;
    Rows3();
    Row(24, -132351750097773017, 762558450479602745);
    Row(25, 762558450479602745, 956375928404503009);
    Row(26, 956375928404503009, 270905788307869006);
    Row(27, 270905788307869006, -663633884212967514);
    Row(28, -663633884212967514, -988031624092861789);
    Row(29, -988031624092861789, -404037645323064993);
    Row(30, -404037645323064993, 551426681241690564);
    Row(31, 551426681241690564, 999911860107267146);
  }

  lemma Rows5()
    ensures Sines(41) == (-158622668804709009, -916521547915633796)
    ensures forall i :: 32 <= i < 40 ==> IsSine(i)
  {
    hide IsSine, Sines;
    Rows4();
    Row(32, 999911860107267146, 529082686120023806);
    Row(33, 529082686120023806, -428182669496151022);
    Row(34, -428182669496151022, -991778853443115741);
    Row(35, -991778853443115741, -643538133356999447);
    Row(36, -643538133356999447, 296368578709385336);
    Row(37, 296368578709385336, 963795386284087759);
    Row(38, 963795386284087759, 745113160479348773);
    Row(39, 745113160479348773, -158622668804709009);
  }

  lemma Rows6()
    ensures Sines(49) == (-953752652759471813, -262374853703928763)
    ensures forall i :: 40 <= i < 48 ==> IsSine(i)
  {
    hide IsSine, Sines;
    Rows5();
    Row(40, -158622668804709009, -916521547915633796);
    Row(41, -916521547915633796, -831774742628598277);
    Row(42, -831774742628598277, 17701925105413600);
    Row(43, 17701925105413600, 850903524534118437);
    Row(44, 850903524534118437, 901788347648809175);
    Row(45, 901788347648809175, 123573122745223980);
    Row(46, 123573122745223980, -768254661323666816);
    Row(47, -768254661323666816, -953752652759471813);
  }

  lemma Rows7()
    ensures Sines(57) == (436164755247824984, 992872648084537122)
    ensures forall i :: 48 <= i < 56 ==> IsSine(i)
  {
    hide IsSine, Sines;
    Rows6();
    Row(48, -953752652759471813, -262374853703928763);
    Row(49, -262374853703928763, 670229175843374754);
    Row(50, 670229175843374754, 986627592040485294);
    Row(51, 986627592040485294, 395925150181834158);
    Row(52, 395925150181834158, -558789048851616269);
    Row(53, -558789048851616269, -999755173358619838);
    Row(54, -999755173358619838, -521551002086911858);
    Row(55, -521551002086911858, 436164755247824984);
  }

  lemma Rows8()
    ensures Sines(65) == (826828679490103450, -26551154023966826)
    ensures forall i :: 56 <= i < 64 ==> IsSine(i)
  {
    hide IsSine, Sines;
    Rows7();
    Row(56, 436164755247824984, 992872648084537122);
    Row(57, 992872648084537122, 636738007139137859);
    Row(58, 636738007139137859, -304810621102216734);
    Row(59, -304810621102216734, -966117770008392956);
    Row(60, -966117770008392956, -739180696649222848);
    Row(61, -739180696649222848, 167355700302806951);
    Row(62, 167355700302806951, 920026038196790695);
    Row(63, 920026038196790695, 826828679490103450);
  }
}
