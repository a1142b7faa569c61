/** The table of primes of rsa.php, and the proof that all its entries are prime. */
module PrimeTable {
  import opened Powers
  import opened NumberTheory

  /** No prime below one hundred divides x. */
  predicate NoSmallFactor(x: nat) {
    && x % 2 != 0 && x % 3 != 0 && x % 5 != 0 && x % 7 != 0 && x % 11 != 0
    && x % 13 != 0 && x % 17 != 0 && x % 19 != 0 && x % 23 != 0 && x % 29 != 0
    && x % 31 != 0 && x % 37 != 0 && x % 41 != 0 && x % 43 != 0 && x % 47 != 0
    && x % 53 != 0 && x % 59 != 0 && x % 61 != 0 && x % 67 != 0 && x % 71 != 0
    && x % 73 != 0 && x % 79 != 0 && x % 83 != 0 && x % 89 != 0 && x % 97 != 0
  }

  type TablePrime = x: nat | 4507 <= x <= 9533 && NoSmallFactor(x) witness 4507

  const ROW_0: seq<TablePrime> := [
    4507, 4513, 4517, 4519, 4523, 4547, 4549, 4561, 4567, 4583, 4591, 4597]

  const ROW_1: seq<TablePrime> := [
    4603, 4621, 4637, 4639, 4643, 4649, 4651, 4657, 4663, 4673, 4679, 4691,
    4703, 4721, 4723, 4729, 4733, 4751, 4759, 4783, 4787, 4789, 4793, 4799,
    4801, 4813, 4817, 4831, 4861, 4871, 4877, 4889, 4903, 4909, 4919, 4931,
    4933, 4937, 4943, 4951, 4957, 4967, 4969, 4973, 4987, 4993, 4999, 5003]

  const ROW_2: seq<TablePrime> := [
    5009, 5011, 5021, 5023, 5039, 5051, 5059, 5077, 5081, 5087, 5099, 5101,
    5107, 5113, 5119, 5147, 5153, 5167, 5171, 5179, 5189, 5197, 5209, 5227,
    5231, 5233, 5237, 5261, 5273, 5279, 5281, 5297, 5303, 5309, 5323, 5333,
    5347, 5351, 5381, 5387, 5393, 5399, 5407, 5413, 5417, 5419, 5431, 5437]

  const ROW_3: seq<TablePrime> := [
    5441, 5443, 5449, 5471, 5477, 5479, 5483, 5501, 5503, 5507, 5519, 5521,
    5527, 5531, 5557, 5563, 5569, 5573, 5581, 5591, 5623, 5639, 5641, 5647,
    5651, 5653, 5657, 5659, 5669, 5683, 5689, 5693, 5701, 5711, 5717, 5737,
    5741, 5743, 5749, 5779, 5783, 5791, 5801, 5807, 5813, 5821, 5827, 5839]

  const ROW_4: seq<TablePrime> := [
    5843, 5849, 5851, 5857, 5861, 5867, 5869, 5879, 5881, 5897, 5903, 5923,
    5927, 5939, 5953, 5981, 5987, 6007, 6011, 6029, 6037, 6043, 6047, 6053,
    6067, 6073, 6079, 6089, 6091, 6101, 6113, 6121, 6131, 6133, 6143, 6151,
    6163, 6173, 6197, 6199, 6203, 6211, 6217, 6221, 6229, 6247, 6257, 6263]

  const ROW_5: seq<TablePrime> := [
    6269, 6271, 6277, 6287, 6299, 6301, 6311, 6317, 6323, 6329, 6337, 6343,
    6353, 6359, 6361, 6367, 6373, 6379, 6389, 6397, 6421, 6427, 6449, 6451,
    6469, 6473, 6481, 6491, 6521, 6529, 6547, 6551, 6553, 6563, 6569, 6571,
    6577, 6581, 6599, 6607, 6619, 6637, 6653, 6659, 6661, 6673, 6679, 6689]

  const ROW_6: seq<TablePrime> := [
    6691, 6701, 6703, 6709, 6719, 6733, 6737, 6761, 6763, 6779, 6781, 6791,
    6793, 6803, 6823, 6827, 6829, 6833, 6841, 6857, 6863, 6869, 6871, 6883,
    6899, 6907, 6911, 6917, 6947, 6949, 6959, 6961, 6967, 6971, 6977, 6983,
    6991, 6997, 7001, 7013, 7019, 7027, 7039, 7043, 7057, 7069, 7079, 7103]

  const ROW_7: seq<TablePrime> := [
    7109, 7121, 7127, 7129, 7151, 7159, 7177, 7187, 7193, 7207, 7211, 7213,
    7219, 7229, 7237, 7243, 7247, 7253, 7283, 7297, 7307, 7309, 7321, 7331,
    7333, 7349, 7351, 7369, 7393, 7411, 7417, 7433, 7451, 7457, 7459, 7477,
    7481, 7487, 7489, 7499, 7507, 7517, 7523, 7529, 7537, 7541, 7547, 7549]

  const ROW_8: seq<TablePrime> := [
    7559, 7561, 7573, 7577, 7583, 7589, 7591, 7603, 7607, 7621, 7639, 7643,
    7649, 7669, 7673, 7681, 7687, 7691, 7699, 7703, 7717, 7723, 7727, 7741,
    7753, 7757, 7759, 7789, 7793, 7817, 7823, 7829, 7841, 7853, 7867, 7873,
    7877, 7879, 7883, 7901, 7907, 7919, 7927, 7933, 7937, 7949, 7951, 7963]

  const ROW_9: seq<TablePrime> := [
    7993, 8009, 8011, 8017, 8039, 8053, 8059, 8069, 8081, 8087, 8089, 8093,
    8101, 8111, 8117, 8123, 8147, 8161, 8167, 8171, 8179, 8191, 8209, 8219,
    8221, 8231, 8233, 8237, 8243, 8263, 8269, 8273, 8287, 8291, 8293, 8297,
    8311, 8317, 8329, 8353, 8363, 8369, 8377, 8387, 8389, 8419, 8423, 8429]

  const ROW_10: seq<TablePrime> := [
    8431, 8443, 8447, 8461, 8467, 8501, 8513, 8521, 8527, 8537, 8539, 8543,
    8563, 8573, 8581, 8597, 8599, 8609, 8623, 8627, 8629, 8641, 8647, 8663,
    8669, 8677, 8681, 8689, 8693, 8699, 8707, 8713, 8719, 8731, 8737, 8741,
    8747, 8753, 8761, 8779, 8783, 8803, 8807, 8819, 8821, 8831, 8837, 8839]

  const ROW_11: seq<TablePrime> := [
    8849, 8861, 8863, 8867, 8887, 8893, 8923, 8929, 8933, 8941, 8951, 8963,
    8969, 8971, 8999, 9001, 9007, 9011, 9013, 9029, 9041, 9043, 9049, 9059,
    9067, 9091, 9103, 9109, 9127, 9133, 9137, 9151, 9157, 9161, 9173, 9181,
    9187, 9199, 9203, 9209, 9221, 9227, 9239, 9241, 9257, 9277, 9281, 9283]

  const ROW_12: seq<TablePrime> := [
    9293, 9311, 9319, 9323, 9337, 9341, 9343, 9349, 9371, 9377, 9391, 9397,
    9403, 9413, 9419, 9421, 9431, 9433, 9437, 9439, 9461, 9463, 9467, 9473,
    9479, 9491, 9497, 9511, 9521, 9533]

  /** The table, 570 entries from 4507 to 9533. */
  function Primes(): (r: seq<TablePrime>)
    ensures |r| == 570
  {
    ROW_0 + (ROW_1 + ROW_2 + ROW_3 + ROW_4 + ROW_5 + ROW_6
      + ROW_7 + ROW_8 + ROW_9 + ROW_10 + ROW_11 + ROW_12)
  }

  lemma SmallestEntry()
    ensures Primes()[0] == 4507
  {
  }

  type HasSmallFactor = x: nat | !NoSmallFactor(x) witness 2

  const SMALL_0: seq<HasSmallFactor> := [
    2, 3, 4, 5, 6, 7, 8, 9, 10, 11, 12, 13, 14, 15, 16, 17, 18,
    19, 20, 21, 22, 23, 24, 25, 26, 27, 28, 29, 30, 31, 32, 33, 34]

  const SMALL_1: seq<HasSmallFactor> := [
    35, 36, 37, 38, 39, 40, 41, 42, 43, 44, 45, 46, 47, 48, 49, 50, 51,
    52, 53, 54, 55, 56, 57, 58, 59, 60, 61, 62, 63, 64, 65, 66, 67]

  const SMALL_2: seq<HasSmallFactor> := [
    68, 69, 70, 71, 72, 73, 74, 75, 76, 77, 78, 79, 80, 81, 82, 83, 84,
    85, 86, 87, 88, 89, 90, 91, 92, 93, 94, 95, 96, 97, 98, 99, 100]

  /** Every number from 2 to 100 has one of those primes as a factor. */
  lemma SmallNumbersHaveSmallFactors(d: nat)
    requires 2 <= d <= 100
    ensures !NoSmallFactor(d)
  {
    hide NoSmallFactor;
    if d <= 34 {
      assert d in SMALL_0;
      var i :| 0 <= i < |SMALL_0| && SMALL_0[i] == d;
    } else if d <= 67 {
      assert d in SMALL_1;
      var i :| 0 <= i < |SMALL_1| && SMALL_1[i] == d;
    } else {
      assert d in SMALL_2;
      var i :| 0 <= i < |SMALL_2| && SMALL_2[i] == d;
    }
  }

  /** Trial division by the primes below one hundred settles primality below 101 squared. */
  lemma NoSmallFactorMeansPrime(x: nat)
    requires 2 <= x < 10201 && NoSmallFactor(x)
    ensures Prime(x)
  {
    forall d: int | 1 < d < x
      ensures !Divides(d, x)
    {
      if Divides(d, x) {
        var k := Cofactor(d, x);
        if d <= 100 {
          FactorHasSmallFactor(d, k, x);
        } else {
          MulCancelLess(k, 101, d);
          FactorHasSmallFactor(k, d, x);
        }
      }
    }
  }

  lemma Cofactor(d: int, x: int) returns (k: int)
    requires 1 < d < x && Divides(d, x)
    ensures x == d * k && 1 < k
  {
    k :| x == k * d;
    MulCancelLess(1, k, d);
  }

  lemma FactorHasSmallFactor(d: nat, k: nat, x: nat)
    requires 2 <= d <= 100 && x == d * k
    ensures !NoSmallFactor(x)
  {
    SmallNumbersHaveSmallFactors(d);
    var r := SmallFactor(d);
    MultipleOf(d, k, r);
  }

  predicate IsSmallPrime(r: nat) {
    || r == 2 || r == 3 || r == 5 || r == 7 || r == 11 || r == 13 || r == 17 || r == 19 || r == 23
    || r == 29 || r == 31 || r == 37 || r == 41 || r == 43 || r == 47 || r == 53 || r == 59 || r == 61
    || r == 67 || r == 71 || r == 73 || r == 79 || r == 83 || r == 89 || r == 97
  }

  lemma SmallFactor(d: nat) returns (r: nat)
    requires !NoSmallFactor(d)
    ensures IsSmallPrime(r) && d % r == 0
  {
    r := if d % 2 == 0 then 2 else if d % 3 == 0 then 3 else if d % 5 == 0 then 5 else if d % 7 == 0 then 7
      else if d % 11 == 0 then 11 else if d % 13 == 0 then 13 else if d % 17 == 0 then 17 else if d % 19 == 0 then 19
      else if d % 23 == 0 then 23 else if d % 29 == 0 then 29 else if d % 31 == 0 then 31 else if d % 37 == 0 then 37
      else if d % 41 == 0 then 41 else if d % 43 == 0 then 43 else if d % 47 == 0 then 47 else if d % 53 == 0 then 53
      else if d % 59 == 0 then 59 else if d % 61 == 0 then 61 else if d % 67 == 0 then 67 else if d % 71 == 0 then 71
      else if d % 73 == 0 then 73 else if d % 79 == 0 then 79 else if d % 83 == 0 then 83 else if d % 89 == 0 then 89
      else 97;
  }

  lemma MultipleOf(d: nat, k: nat, r: nat)
    requires r > 0 && d % r == 0
    ensures (d * k) % r == 0
  {
    MulAssociates(d / r, k, r);
    assert d * k == (d / r) * (r * k);
    DivModUnique(d * k, r, (d / r) * k, 0);
  }

}
