/** A concrete ring with a root for every block length below 2^64: the integers mod 9 * 2^63 + 1. */
module Residues {
  import opened DspEngine
  import opened Fft
  import opened Powers
  import opened Rings

  const MODULUS := 83010348331692982273

  type Residue = x: int | 0 <= x < MODULUS

  function Reduce(x: int): Residue { x % MODULUS }

  function Plus(a: Residue, b: Residue): Residue {
    var sum: int := a as int + b as int;
    if sum < MODULUS then sum else sum - MODULUS
  }

  function Minus(a: Residue): Residue { if a == 0 then 0 else MODULUS - a }

  function Times(a: Residue, b: Residue): Residue { Reduce(a as int * b as int) }

  function ResidueRing(): Ring<Residue> {
    Ring(0, 1, Plus, Minus, Times)
  }

  /** Of order 2^63. */
  const TOP_ROOT: Residue := 1953125

  function Squared(x: Residue, times: nat): Residue {
    if times == 0 then x else Times(Squared(x, times - 1), Squared(x, times - 1))
  }

  /** The root of block length 2^s: the top root squared as often as the lengths halve. */
  function StageRoot(s: nat): Residue {
    if 1 <= s <= 63 then Squared(TOP_ROOT, 63 - s) else 0
  }

  lemma ReduceShift(x: int, t: int)
    ensures Reduce(x + t * MODULUS) == Reduce(x)
  {
  }

  lemma ReduceProduct(x: int, y: int)
    ensures Reduce(Reduce(x) * y) == Reduce(x * y)
  {
    var q := x / MODULUS;
    assert x == q * MODULUS + Reduce(x);
    assert x * y == Reduce(x) * y + (q * y) * MODULUS;
    ReduceShift(Reduce(x) * y, q * y);
  }

  lemma TimesAssociates(a: Residue, b: Residue, c: Residue)
    ensures Times(Times(a, b), c) == Times(a, Times(b, c))
  {
    var x, y, z: int := a, b, c;
    ReduceProduct(x * y, z);
    ReduceProduct(y * z, x);
    MulAssociates(x, y, z);
    Commute(x, y * z);
    Commute(x, Reduce(y * z));
  }

  lemma ReduceSum(x: int, y: int)
    ensures Plus(Reduce(x), Reduce(y)) == Reduce(x + y)
  {
  }

  lemma PlusReduces(a: Residue, b: Residue)
    ensures Plus(a, b) == Reduce(a as int + b as int)
  {
  }

  lemma Commute(x: int, y: int)
    ensures x * y == y * x
  {
  }

  lemma Expand(x: int, y: int, z: int)
    ensures (y + z) * x == x * y + x * z
  {
  }

  lemma TimesDistributes(a: Residue, b: Residue, c: Residue)
    ensures Times(a, Plus(b, c)) == Plus(Times(a, b), Times(a, c))
  {
    var x, y, z: int := a, b, c;
    calc {
      Times(a, Plus(b, c));
      { PlusReduces(b, c); Commute(x, Reduce(y + z)); }
      Reduce(Reduce(y + z) * x);
      { ReduceProduct(y + z, x); }
      Reduce((y + z) * x);
      { Expand(x, y, z); }
      Reduce(x * y + x * z);
      { ReduceSum(x * y, x * z); }
      Plus(Times(a, b), Times(a, c));
    }
  }

  lemma PlusLaws(a: Residue, b: Residue, c: Residue)
    ensures Plus(a, b) == Plus(b, a) && Plus(Plus(a, b), c) == Plus(a, Plus(b, c))
    ensures Plus(a, 0) == a && Plus(a, Minus(a)) == 0
  {
  }

  lemma TimesLaws(a: Residue, b: Residue, c: Residue)
    ensures Times(a, b) == Times(b, a) && Times(Times(a, b), c) == Times(a, Times(b, c))
    ensures Times(1, a) == a && Times(a, Plus(b, c)) == Plus(Times(a, b), Times(a, c))
  {
    TimesAssociates(a, b, c);
    TimesDistributes(a, b, c);
    assert a as int * b as int == b as int * a as int;
  }

  lemma ResiduesLawful()
    ensures ResidueRing().Lawful()
  {
    var r := ResidueRing();
    forall a, b, c
      ensures r.AddCommutes(a, b) && r.AddAssociates(a, b, c) && r.ZeroIsNeutral(a) && r.NegCancels(a)
      ensures r.MulCommutes(a, b) && r.MulAssociates(a, b, c) && r.OneIsNeutral(a) && r.Distributes(a, b, c)
    {
      PlusLaws(a, b, c);
      TimesLaws(a, b, c);
    }
  }

  lemma SquaredOnce(times: nat, x: Residue, y: Residue)
    requires Squared(TOP_ROOT, times) == x && Times(x, x) == y
    ensures Squared(TOP_ROOT, times + 1) == y
  {
  }

  lemma SquaredTo8()
    ensures Squared(TOP_ROOT, 8) == 56564573757893760681
  {
    SquaredOnce(0, 1953125, 3814697265625);
    SquaredOnce(1, 3814697265625, 35145124408628219179);
    SquaredOnce(2, 35145124408628219179, 75238500610351944085);
    SquaredOnce(3, 75238500610351944085, 23176479812695942490);
    SquaredOnce(4, 23176479812695942490, 69333771116969795232);
    SquaredOnce(5, 69333771116969795232, 71978623109418212288);
    SquaredOnce(6, 71978623109418212288, 71734231819986197985);
    SquaredOnce(7, 71734231819986197985, 56564573757893760681);
  }

  lemma SquaredTo16()
    ensures Squared(TOP_ROOT, 16) == 42143419821409309482
  {
    SquaredTo8();
    SquaredOnce(8, 56564573757893760681, 29207284564767495444);
    SquaredOnce(9, 29207284564767495444, 61822248037743396218);
    SquaredOnce(10, 61822248037743396218, 35896491636833570143);
    SquaredOnce(11, 35896491636833570143, 55398959052324150691);
    SquaredOnce(12, 55398959052324150691, 6820154493232190683);
    SquaredOnce(13, 6820154493232190683, 4735509992299316728);
    SquaredOnce(14, 4735509992299316728, 54428009444592619356);
    SquaredOnce(15, 54428009444592619356, 42143419821409309482);
  }

  lemma SquaredTo24()
    ensures Squared(TOP_ROOT, 24) == 66924207699980263393
  {
    SquaredTo16();
    SquaredOnce(16, 42143419821409309482, 6542250880896795604);
    SquaredOnce(17, 6542250880896795604, 2593058814345191856);
    SquaredOnce(18, 2593058814345191856, 46986006797791607225);
    SquaredOnce(19, 46986006797791607225, 28177583392049127835);
    SquaredOnce(20, 28177583392049127835, 13707810471927283534);
    SquaredOnce(21, 13707810471927283534, 6765792537906705599);
    SquaredOnce(22, 6765792537906705599, 41897684377622107623);
    SquaredOnce(23, 41897684377622107623, 66924207699980263393);
  }

  lemma SquaredTo32()
    ensures Squared(TOP_ROOT, 32) == 62476165200651451824
  {
    SquaredTo24();
    SquaredOnce(24, 66924207699980263393, 81035970325375388269);
    SquaredOnce(25, 81035970325375388269, 55245028061135150614);
    SquaredOnce(26, 55245028061135150614, 64330480606839839308);
    SquaredOnce(27, 64330480606839839308, 27339035246538884038);
    SquaredOnce(28, 27339035246538884038, 59843716097449651485);
    SquaredOnce(29, 59843716097449651485, 59034686021679219189);
    SquaredOnce(30, 59034686021679219189, 32394399089949833892);
    SquaredOnce(31, 32394399089949833892, 62476165200651451824);
  }

  lemma SquaredTo40()
    ensures Squared(TOP_ROOT, 40) == 70799087838232998512
  {
    SquaredTo32();
    SquaredOnce(32, 62476165200651451824, 26728234785700499451);
    SquaredOnce(33, 26728234785700499451, 37918657643293555575);
    SquaredOnce(34, 37918657643293555575, 7758777502237645275);
    SquaredOnce(35, 7758777502237645275, 38428165394317979109);
    SquaredOnce(36, 38428165394317979109, 39223003557493984365);
    SquaredOnce(37, 39223003557493984365, 19250539651266031220);
    SquaredOnce(38, 19250539651266031220, 28034857936513691349);
    SquaredOnce(39, 28034857936513691349, 70799087838232998512);
  }

  lemma SquaredTo48()
    ensures Squared(TOP_ROOT, 48) == 81370815281977910074
  {
    SquaredTo40();
    SquaredOnce(40, 70799087838232998512, 45295131676508273217);
    SquaredOnce(41, 45295131676508273217, 74193305863386022480);
    SquaredOnce(42, 74193305863386022480, 63878175948735038645);
    SquaredOnce(43, 63878175948735038645, 55310444191273972113);
    SquaredOnce(44, 55310444191273972113, 44944924234624967389);
    SquaredOnce(45, 44944924234624967389, 55414226495467587773);
    SquaredOnce(46, 55414226495467587773, 67292216920130956077);
    SquaredOnce(47, 67292216920130956077, 81370815281977910074);
  }

  lemma SquaredTo56()
    ensures Squared(TOP_ROOT, 56) == 78993896443940410485
  {
    SquaredTo48();
    SquaredOnce(48, 81370815281977910074, 67469192261593674802);
    SquaredOnce(49, 67469192261593674802, 62349857052279774262);
    SquaredOnce(50, 62349857052279774262, 45784678597091914417);
    SquaredOnce(51, 45784678597091914417, 67757912201027979527);
    SquaredOnce(52, 67757912201027979527, 54239862568721888593);
    SquaredOnce(53, 54239862568721888593, 78736815883787308320);
    SquaredOnce(54, 78736815883787308320, 15592101337409748915);
    SquaredOnce(55, 15592101337409748915, 78993896443940410485);
  }

  lemma SquaredTo62()
    ensures Squared(TOP_ROOT, 62) == 83010348331692982272
  {
    SquaredTo56();
    SquaredOnce(56, 78993896443940410485, 44829545556225571394);
    SquaredOnce(57, 44829545556225571394, 70896942400627800573);
    SquaredOnce(58, 70896942400627800573, 7592345649698154679);
    SquaredOnce(59, 7592345649698154679, 75968000762953193511);
    SquaredOnce(60, 75968000762953193511, 40733238329029927221);
    SquaredOnce(61, 40733238329029927221, 83010348331692982272);
  }

  /** The hypotheses of the transform hold for every block length up to 2^63. */
  lemma ResiduesHaveStageRoots(m: nat)
    requires m <= 63
    ensures ResidueRing().Lawful() && StageRoots(ResidueRing(), StageRoot, m)
  {
    hide Squared;
    ResiduesLawful();
    SquaredTo62();
    forall s: nat | 1 <= s < m
      ensures ResidueRing().mul(StageRoot(s + 1), StageRoot(s + 1)) == StageRoot(s)
    {
      RootSquares(s);
    }
  }

  lemma RootSquares(s: nat)
    requires 1 <= s < 63
    ensures Times(StageRoot(s + 1), StageRoot(s + 1)) == StageRoot(s)
  {
  }

  /** An arithmetic over this ring suits every block the worker accepts. */
  lemma ResiduesSuitEverySize(arith: Arithmetic<Residue>, n: nat)
    requires arith.ring == ResidueRing() && arith.root == StageRoot && n < 0x8000_0000_0000_0000
    ensures Suits(arith, n)
  {
    ResiduesHaveStageRoots(63);
    HighestPower();
    forall m: nat | Pow2(m) <= n
      ensures StageRoots(arith.ring, arith.root, m)
    {
      Pow2Order(63, m);
    }
  }

  lemma FirstPowers()
    ensures Pow2(0) == 1 && Pow2(7) == 128
  {
    Pow2Splits(7, 3);
    Pow2Splits(4, 2);
    assert Pow2(1) == 2 && Pow2(2) == 4 && Pow2(3) == 8;
  }

  lemma HighestPower()
    ensures Pow2(63) == 0x8000_0000_0000_0000
  {
    hide Pow2;
    FirstPowers();
    Pow2Byte(0);
    Pow2Byte(8);
    Pow2Byte(16);
    Pow2Byte(24);
    Pow2Byte(32);
    Pow2Byte(40);
    Pow2Byte(48);
    Pow2Splits(63, 7);
  }
}
