/** The table random starts with, and the proof that it is what srandom(1) would write. */
module RandomInit {
  import opened Bits
  import Lcg
  import opened Rand
  import opened Lagged

  const RANDOM_INIT: seq<nat> := [
    0x00000000, 0x5851f42d, 0xc0b18ccf, 0xcbb5f646, 0xc7033129, 0x30705b04, 0x20fd5db4, 0x9a8b7f78,
    0x502959d8, 0xab894868, 0x6c0356a7, 0x88cdb7ff, 0xb477d43f, 0x70a3a52b, 0xa8e4baf1, 0xfd8341fc,
    0x8ae16fd9, 0x742d2f7a, 0x0d1f0796, 0x76035e09, 0x40f7702c, 0x6fa72ca5, 0xaaa84157, 0x58a0df74,
    0xc74a0364, 0xae533cc4, 0x04185faf, 0x6de3b115, 0x0cab8628, 0xf043bfa4, 0x398150e9, 0x37521657
  ]

  // ----- Without srandom, random behaves as after srandom(1) -----

  /** Word k drawn from seed 1, given state k and state k + 1 in numbers. */
  lemma {:induction false} Draw(k: nat, x: nat, q: nat, y: nat, u: nat)
    requires k < 31 && Lcg.Iterate(64, MUL64, 1, k, 1) == x
    requires 6_364_136_223_846_793_005 * x + 1 == q * 0x1_0000_0000_0000_0000 + y
    requires y < 0x1_0000_0000_0000_0000 && u * 0x1_0000_0000 <= y < (u + 1) * 0x1_0000_0000
    ensures Lcg.Iterate(64, MUL64, 1, k + 1, 1) == y
    ensures SeedWords(31, 1)[k] == u
  {
    hide Lcg.Step, SeedWords, Pow2;
    Pow2Values();
    StepIs(64, MUL64, 1, x);
    Draw64(x, q, y);
    SeedWordsAt(31, 1, k);
  }

  lemma {:induction false} Words0()
    requires Lcg.Iterate(64, MUL64, 1, 0, 1) == 1
    ensures Lcg.Iterate(64, MUL64, 1, 8, 1) == 5776246781640716793
    ensures forall k :: 0 <= k < 8 ==> SeedWords(31, 1)[k] == RANDOM_INIT[k + 1]
  {
    hide Lcg.Iterate, SeedWords;
    Draw(0, 1, 0, 6364136223846793006, 0x5851f42d);
    Draw(1, 6364136223846793006, 2195630281085919242, 13885033948157127959, 0xc0b18ccf);
    Draw(2, 13885033948157127959, 4790343876714239245, 14678909342070756876, 0xcbb5f646);
    Draw(3, 14678909342070756876, 5064231297249714161, 14340359694176818205, 0xc7033129);
    Draw(4, 14340359694176818205, 4947431494036576325, 3490389784639564826, 0x30705b04);
    Draw(5, 3490389784639564826, 1204186276722300187, 2377159206977889939, 0x20fd5db4);
    Draw(6, 2377159206977889939, 820121153008256798, 11136134660641191128, 0x9a8b7f78);
    Draw(7, 11136134660641191128, 3841972204104549253, 5776246781640716793, 0x502959d8);
  }

  lemma {:induction false} Words8()
    requires Lcg.Iterate(64, MUL64, 1, 8, 1) == 5776246781640716793
    ensures Lcg.Iterate(64, MUL64, 1, 16, 1) == 10007402826525227761
    ensures forall k :: 8 <= k < 16 ==> SeedWords(31, 1)[k] == RANDOM_INIT[k + 1]
  {
    hide Lcg.Iterate, SeedWords;
    Draw(8, 5776246781640716793, 1992808120177151560, 12360490266823512006, 0xab894868);
    Draw(9, 12360490266823512006, 4264375519998110078, 7783159857423531983, 0x6c0356a7);
    Draw(10, 7783159857423531983, 2685194166878170078, 9857737466630432868, 0x88cdb7ff);
    Draw(11, 9857737466630432868, 3400924512525019797, 13004095818351146389, 0xb477d43f);
    Draw(12, 13004095818351146389, 4486419767372016808, 8116512559640647218, 0x70a3a52b);
    Draw(13, 8116512559640647218, 2800201021151208862, 12170057637489489099, 0xa8e4baf1);
    Draw(14, 12170057637489489099, 4198676164615698171, 18267517067855658160, 0xfd8341fc);
    Draw(15, 18267517067855658160, 6302302814347064940, 10007402826525227761, 0x8ae16fd9);
  }

  lemma {:induction false} Words16()
    requires Lcg.Iterate(64, MUL64, 1, 16, 1) == 10007402826525227761
    ensures Lcg.Iterate(64, MUL64, 1, 24, 1) == 14360294090733091561
    ensures forall k :: 16 <= k < 24 ==> SeedWords(31, 1)[k] == RANDOM_INIT[k + 1]
  {
    hide Lcg.Iterate, SeedWords;
    Draw(16, 10007402826525227761, 3452559138915214515, 8371399485941705566, 0x742d2f7a);
    Draw(17, 8371399485941705566, 2888137142245305536, 945482789575819655, 0x0d1f0796);
    Draw(18, 945482789575819655, 326192050267500818, 8503743914302291388, 0x76035e09);
    Draw(19, 8503743914302291388, 2933796038318694114, 4681333673231752717, 0x40f7702c);
    Draw(20, 4681333673231752717, 1615062532807005313, 8045448350685608778, 0x6fa72ca5);
    Draw(21, 8045448350685608778, 2775683832392985362, 12297150624705552899, 0xaaa84157);
    Draw(22, 12297150624705552899, 4242523310784512328, 6386349962426349448, 0x58a0df74);
    Draw(23, 6386349962426349448, 2203294032358031355, 14360294090733091561, 0xc74a0364);
  }

  lemma {:induction false} Words24()
    requires Lcg.Iterate(64, MUL64, 1, 24, 1) == 14360294090733091561
    ensures Lcg.Iterate(64, MUL64, 1, 31, 1) == 3986273184742753632
    ensures forall k :: 24 <= k < 31 ==> SeedWords(31, 1)[k] == RANDOM_INIT[k + 1]
  {
    hide Lcg.Iterate, SeedWords;
    Draw(24, 14360294090733091561, 4954308871134528009, 12561450599696118262, 0xae533cc4);
    Draw(25, 12561450599696118262, 4333706938533569515, 295090981297771071, 0x04185faf);
    Draw(26, 295090981297771071, 101806540813030577, 7918367277246395924, 0x6de3b115);
    Draw(27, 7918367277246395924, 2731840796483332225, 912970859590086021, 0x0cab8628);
    Draw(28, 912970859590086021, 314975417646448278, 17312892106615765858, 0xf043bfa4);
    Draw(29, 17312892106615765858, 5972956710138149499, 4143682098007182907, 0x398150e9);
    Draw(30, 4143682098007182907, 1429572461929316344, 3986273184742753632, 0x37521657);
  }

  /** The static table is what srandom(1) writes. */
  lemma {:induction false} InitialIsSeedOne()
    ensures Lagged(3, 0, RANDOM_INIT[1..]) == Seeded(31, 1)
  {
    hide SeedWords, Or;
    assert Lcg.Iterate(64, MUL64, 1, 0, 1) == 1;
    hide Lcg.Iterate;
    Words0();
    Words8();
    Words16();
    Words24();
    var w := SeedWords(31, 1);
    assert w == RANDOM_INIT[1..];
    OrOne(w[0]);
    assert w[0] % 2 == 1;
    assert w[0 := w[0]] == w;
  }

  /** The first number after srandom(1), or without srandom: the halved sum of the words 0x5851f42d and 0xc7033129. */
  lemma {:induction false} FirstNumber()
    ensures Next(Seeded(31, 1)).1 == 262_836_907
  {
    InitialIsSeedOne();
    hide Seeded;
    var g := Lagged(3, 0, RANDOM_INIT[1..]);
    assert g.words[0] == 0x5851f42d && g.words[3] == 0xc7033129;
  }
}
