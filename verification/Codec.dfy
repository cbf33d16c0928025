/** The encoder and the decoder around the code: encoder.cpp and decoder.cpp. */
module Codec {
  import opened Gf2
  import opened RowOperations
  import opened Rank
  import opened Maths
  import opened MatricesGenerator
  import opened ParityCheck
  import opened Powers

  // ----- codewords and messages -----

  lemma ProductWithColumn(G: Matrix, b: Mat, Z: Mat)
    requires b.Length1 == 1 == Z.Length1 && IsMatrix(G, Z.Length0, b.Length0)
    requires Bits(Z) == Mul(G, Bits(b), Z.Length0, b.Length0, 1)
    ensures Column(Z) == Apply(G, Column(b))
  {
    forall i | 0 <= i < Z.Length0 ensures Column(Z)[i] == Apply(G, Column(b))[i] {
      CombineAt(G[i], Bits(b), 1, 0);
      assert Transpose(Bits(b), b.Length0, 1)[0] == Column(b);
      assert Bits(Z)[i][0] == Column(Z)[i];
    }
  }

  lemma {:induction false} MatSumZero(B: Matrix, k: nat)
    requires IsMatrix(B, |B|, 1) && k <= |B|
    ensures MatSum(B, k) == 0 <==> forall i :: 0 <= i < k ==> !B[i][0]
  {
    if k > 0 {
      MatSumZero(B, k - 1);
      assert Ones(B[k - 1], 1) == Ones(B[k - 1], 0) + if B[k - 1][0] then 1 else 0;
    }
  }

  method IsCodeWord(H: Mat, x: Mat) returns (r: bool)
    requires IsBinary(H) && IsBinary(x) && x.Length0 == H.Length1 && x.Length1 == 1
    ensures r <==> Apply(Bits(H), Column(x)) == Zero(H.Length0)
  {
    var product := BinaryProduct(H, x);
    ResiduesOfBits(H);
    ResiduesOfBits(x);
    ProductWithColumn(Bits(H), x, product);
    var count := SumEntries(product);
    r := count == 0;
    MatSumZero(Bits(product), product.Length0);
    ghost var w := Column(product);
    assert forall i :: 0 <= i < product.Length0 ==> w[i] == Bits(product)[i][0];
    assert w == Zero(H.Length0) <==> forall i :: 0 <= i < H.Length0 ==> !w[i];
  }

  /** Row i of M from column lo on, as a 1 x n matrix. */
  method RowTail(M: Mat, i: nat, lo: nat) returns (row: Mat)
    requires i < M.Length0 && lo <= M.Length1
    ensures fresh(row) && row.Length0 == 1 && row.Length1 == M.Length1 - lo
    ensures forall j :: 0 <= j < row.Length1 ==> row[0, j] == M[i, lo + j]
  {
    row := new int[1, M.Length1 - lo]((r, j) requires 0 <= j < M.Length1 - lo reads M => M[i, lo + j]);
  }

  /** The transpose of a 1 x n matrix. */
  method ToColumn(row: Mat) returns (b: Mat)
    requires row.Length0 == 1
    ensures fresh(b) && b.Length0 == row.Length1 && b.Length1 == 1
    ensures forall j :: 0 <= j < row.Length1 ==> b[j, 0] == row[0, j]
    ensures IsBinary(row) ==> IsBinary(b) && Column(b) == Bits(row)[0]
  {
    b := new int[row.Length1, 1]((j, c) requires 0 <= j < row.Length1 reads row => row[0, j]);
    assert forall j :: 0 <= j < row.Length1 ==> Column(b)[j] == Bits(row)[0][j];
  }

  /** The product of a row of zeros with anything. */
  lemma ZeroProduct(row: Mat, b: Mat, product: Mat)
    requires row.Length0 == 1 && b.Length1 == 1 && row.Length1 == b.Length0
    requires product.Length0 == product.Length1 == 1 && IsBinary(product)
    requires Bits(product) == Mul(Residues(row), Residues(b), 1, row.Length1, 1)
    requires forall j :: 0 <= j < row.Length1 ==> row[0, j] == 0
    ensures product[0, 0] == 0
  {
    assert Residues(row)[0] == Zero(row.Length1);
    CombineToZero(Residues(b), row.Length1, 1, row.Length1);
    assert !Bits(product)[0][0];
  }

  /** What is subtracted from message bit i: row i of the eliminated matrix right of the diagonal times the later
      bits. */
  method TailProduct(rtG: Mat, message: Mat, i: nat) returns (p: int)
    requires rtG.Length1 <= rtG.Length0 && message.Length0 == 1 && message.Length1 == rtG.Length1
    requires i < rtG.Length1 && IsBinary(rtG)
    ensures UnitColumns(Bits(rtG), rtG.Length0, rtG.Length1, rtG.Length1) ==> p == 0
  {
    var rtGRow := RowTail(rtG, i, i + 1);
    var msgRow := RowTail(message, 0, i + 1);
    var msgCol := ToColumn(msgRow);
    var product := BinaryProduct(rtGRow, msgCol);
    p := product[0, 0];
    if UnitColumns(Bits(rtG), rtG.Length0, rtG.Length1, rtG.Length1) {
      forall j | 0 <= j < rtGRow.Length1 ensures rtGRow[0, j] == 0 {
        assert !Bits(rtG)[i][i + 1 + j];
      }
      ZeroProduct(rtGRow, msgCol, product);
    }
  }

  /** Back substitution: after a full elimination nothing is left to substitute, and the message is the right side. */
  method BackSubstitute(rtG: Mat, rx: Mat) returns (message: Mat)
    requires rx.Length1 == 1 && rx.Length0 == rtG.Length0 && 1 <= rtG.Length1 <= rtG.Length0
    requires IsBinary(rtG) && IsBinary(rx)
    ensures fresh(message) && message.Length0 == 1 && message.Length1 == rtG.Length1
    ensures UnitColumns(Bits(rtG), rtG.Length0, rtG.Length1, rtG.Length1) ==>
              forall c :: 0 <= c < rtG.Length1 ==> message[0, c] == rx[c, 0]
  {
    var k := rtG.Length1;
    message := new int[1, k]((i, j) => 0);
    message[0, k - 1] := rx[k - 1, 0];
    for i := k - 1 downto 0
      invariant UnitColumns(Bits(rtG), rtG.Length0, k, k) ==> forall c :: i <= c < k ==> message[0, c] == rx[c, 0]
    {
      message[0, i] := rx[i, 0];
      var product := TailProduct(rtG, message, i);
      message[0, i] := message[0, i] - product;
    }
  }

  /** m is the only message that tG encodes as x. */
  ghost predicate Encodes(G: Matrix, m: Vec, x: Vec)
    requires IsMatrix(G, |x|, |m|)
  {
    IndependentColumns(G, |m|) && Apply(G, m) == x
  }

  lemma SolutionOfUnitColumns(B: Matrix, n: nat, m: Vec)
    requires IsMatrix(B, n, |m|) && |m| <= n && UnitColumns(B, n, |m|, |m|)
    ensures forall c :: 0 <= c < |m| ==> Apply(B, m)[c] == m[c]
  {
    forall c | 0 <= c < |m| ensures Dot(B[c], m) == m[c] {
      assert B[c] == Unit(|m|, c);
      DotUnit(m, c);
    }
  }

  method Eliminated(tG: Mat, x: Mat, beyond: Memory) returns (rtG: Mat, rx: Mat)
    requires IsBinary(tG) && IsBinary(x) && x.Length0 == tG.Length0 && x.Length1 == 1
    requires tG.Length1 <= tG.Length0
    ensures fresh(rtG) && rtG.Length0 == tG.Length0 && rtG.Length1 == tG.Length1 && IsBinary(rtG)
    ensures fresh(rx) && rx.Length0 == x.Length0 && rx.Length1 == 1 && IsBinary(rx)
    ensures IndependentColumns(Bits(tG), tG.Length1) ==> UnitColumns(Bits(rtG), tG.Length0, tG.Length1, tG.Length1)
    ensures forall m: Vec :: |m| == tG.Length1 && Encodes(Bits(tG), m, Column(x)) ==> Column(rx)[..|m|] == m
  {
    rtG := Clone(tG);
    rx := Clone(x);
    assert Column(rx) == Column(x);
    GaussElimination(rtG, rx, beyond);
    forall m: Vec | |m| == tG.Length1 && Encodes(Bits(tG), m, Column(x)) ensures Column(rx)[..|m|] == m {
      assert Apply(Bits(rtG), m) == Column(rx);
      SolutionOfUnitColumns(Bits(rtG), rtG.Length0, m);
    }
  }

  method Abs(M: Mat) returns (R: Mat)
    ensures fresh(R) && R.Length0 == M.Length0 && R.Length1 == M.Length1
    ensures forall i, j :: 0 <= i < M.Length0 && 0 <= j < M.Length1 ==>
            R[i, j] == if M[i, j] < 0 then -M[i, j] else M[i, j]
  {
    R := new int[M.Length0, M.Length1]((i, j) requires 0 <= i < M.Length0 && 0 <= j < M.Length1 reads M =>
      if M[i, j] < 0 then -M[i, j] else M[i, j]);
  }

  /** The message whose codeword is x, provided that the columns of tG are independent and that there is one. */
  method GetMessageFromCodeword(tG: Mat, x: Mat, beyond: Memory) returns (message: Mat)
    requires IsBinary(tG) && IsBinary(x) && x.Length0 == tG.Length0 && x.Length1 == 1
    requires 1 <= tG.Length1 <= tG.Length0
    ensures fresh(message) && message.Length0 == 1 && message.Length1 == tG.Length1
    ensures IndependentColumns(Bits(tG), tG.Length1) ==> IsBinary(message)
    ensures forall m: Vec :: |m| == tG.Length1 && Encodes(Bits(tG), m, Column(x)) ==> Bits(message)[0] == m
  {
    var rtG, rx := Eliminated(tG, x, beyond);
    var signed := BackSubstitute(rtG, rx);
    message := Abs(signed);
    forall m: Vec | |m| == tG.Length1 && Encodes(Bits(tG), m, Column(x)) ensures Bits(message)[0] == m {
      forall c | 0 <= c < |m| ensures Bits(message)[0][c] == m[c] {
        assert Column(rx)[..|m|][c] == m[c];
      }
    }
  }

  // ----- characters and bits -----

  function ShiftRight(c: nat, k: nat): nat {
    if k == 0 then c else ShiftRight(c, k - 1) / 2
  }

  /** (c & (1 << bit)) >> bit for a character code c. */
  function BitOf(c: nat, bit: nat): nat {
    ShiftRight(c, bit) % 2
  }

  ghost predicate AreCharacters(input: seq<nat>) {
    forall i :: 0 <= i < |input| ==> input[i] < 256
  }

  /** The bits of the input, the most significant bit of each character first. */
  ghost function MessageBits(input: seq<nat>): (m: Vec)
    ensures |m| == 8 * |input|
  {
    seq(8 * |input|, i requires 0 <= i < 8 * |input| => BitOf(input[i / 8], 7 - i % 8) == 1)
  }

  /** The number whose binary digit of weight 2^q is byte[q]. */
  function ToUlong(byte: seq<bool>, k: nat): nat
    requires k <= |byte|
  {
    if k == 0 then 0 else ToUlong(byte, k - 1) + if byte[k - 1] then Pow2(k - 1) else 0
  }

  lemma DigitStep(p: nat, s: nat, half: nat, b: nat)
    requires s == 2 * half + b && b < 2
    ensures p * s == (2 * p) * half + if b == 1 then p else 0
  {
    assert p * (2 * half) == (2 * p) * half;
  }

  lemma {:induction false} ToUlongOfDigits(byte: seq<bool>, c: nat, k: nat)
    requires k <= |byte| && forall q :: 0 <= q < |byte| ==> byte[q] == (BitOf(c, q) == 1)
    ensures c == ToUlong(byte, k) + Pow2(k) * ShiftRight(c, k)
  {
    if k > 0 {
      ToUlongOfDigits(byte, c, k - 1);
      DigitStep(Pow2(k - 1), ShiftRight(c, k - 1), ShiftRight(c, k), BitOf(c, k - 1));
    }
  }

  /** Group i of eight bits of m, the last bit having the least weight. */
  ghost function ByteAt(m: Vec, i: nat): seq<bool>
    requires 8 * i + 8 <= |m|
  {
    seq(8, q requires 0 <= q < 8 => m[8 * i + 7 - q])
  }

  /** The characters that a bit vector spells, ignoring what is left over after the last full group of eight. */
  ghost function CharsOf(m: Vec): seq<nat> {
    seq(|m| / 8, i requires 0 <= i < |m| / 8 => ToUlong(ByteAt(m, i), 8))
  }

  lemma PlaceInByte(i: nat, q: nat)
    requires q < 8
    ensures (8 * i + 7 - q) / 8 == i && (8 * i + 7 - q) % 8 == 7 - q
  {
  }

  /** Eight digits are all that a character has. */
  lemma EightDigits(c: nat, digits: nat, rest: nat)
    requires c == digits + Pow2(8) * rest && c < 256
    ensures c == digits
  {
    assert Pow2(4) == 16;
    assert Pow2(8) == 256;
  }

  lemma ByteOfMessageBits(input: seq<nat>, i: nat)
    requires AreCharacters(input) && i < |input|
    ensures ToUlong(ByteAt(MessageBits(input), i), 8) == input[i]
  {
    var byte := ByteAt(MessageBits(input), i);
    forall q | 0 <= q < 8 ensures byte[q] == (BitOf(input[i], q) == 1) {
      PlaceInByte(i, q);
    }
    ToUlongOfDigits(byte, input[i], 8);
    EightDigits(input[i], ToUlong(byte, 8), ShiftRight(input[i], 8));
  }

  /** Packing bits into characters undoes unpacking characters into bits. */
  lemma CharsOfMessageBits(input: seq<nat>)
    requires AreCharacters(input)
    ensures CharsOf(MessageBits(input)) == input
  {
    forall i | 0 <= i < |input| ensures CharsOf(MessageBits(input))[i] == input[i] {
      ByteOfMessageBits(input, i);
    }
  }

  /** A bit vector read as a number, the first bit having the greatest weight. */
  ghost function BinaryValue(m: Vec): nat {
    if m == [] then 0 else 2 * BinaryValue(m[..|m| - 1]) + if m[|m| - 1] then 1 else 0
  }

  /** Characters read as the digits of a number to base 256, the first one having the greatest weight. */
  ghost function CharsValue(input: seq<nat>): nat {
    if input == [] then 0 else 256 * CharsValue(input[..|input| - 1]) + input[|input| - 1]
  }

  lemma BinaryValueNext(m: Vec, bit: bool)
    ensures BinaryValue(m + [bit]) == 2 * BinaryValue(m) + if bit then 1 else 0
  {
    assert (m + [bit])[..|m|] == m;
  }

  lemma {:induction false} ShiftedOut(c: nat, k: nat)
    requires c < 256 && k <= 8
    ensures ShiftRight(c, k) < Pow2(8 - k)
  {
    if k == 0 {
      assert Pow2(4) == 16;
      assert Pow2(8) == 256;
    } else {
      ShiftedOut(c, k - 1);
    }
  }

  lemma ShiftInBit(v: nat, p: nat, m: nat, high: nat, low: nat, bit: nat)
    requires v == p * m + high && high == low / 2 && bit == low % 2
    ensures 2 * v + bit == (2 * p) * m + low
  {
    assert 2 * (p * m) == (2 * p) * m;
  }

  /** The first k bits of a character, put after a bit vector, make it the beginning of a larger number. */
  lemma {:induction false} BinaryValueOfBits(m: Vec, bits: Vec, c: nat, k: nat)
    requires c < 256 && |bits| == 8 && k <= 8 && forall j :: 0 <= j < 8 ==> bits[j] == (BitOf(c, 7 - j) == 1)
    ensures BinaryValue(m + bits[..k]) == Pow2(k) * BinaryValue(m) + ShiftRight(c, 8 - k)
  {
    if k == 0 {
      assert m + bits[..0] == m;
      ShiftedOut(c, 8);
    } else {
      BinaryValueOfBits(m, bits, c, k - 1);
      assert m + bits[..k] == m + bits[..k - 1] + [bits[k - 1]];
      BinaryValueNext(m + bits[..k - 1], bits[k - 1]);
      ShiftInBit(BinaryValue(m + bits[..k - 1]), Pow2(k - 1), BinaryValue(m), ShiftRight(c, 9 - k),
                 ShiftRight(c, 8 - k), BitOf(c, 8 - k));
    }
  }

  lemma MessageBitsNext(input: seq<nat>, c: nat) returns (bits: Vec)
    ensures MessageBits(input + [c]) == MessageBits(input) + bits
    ensures |bits| == 8 && forall j :: 0 <= j < 8 ==> bits[j] == (BitOf(c, 7 - j) == 1)
  {
    var n := |input|;
    bits := seq(8, j requires 0 <= j < 8 => BitOf(c, 7 - j) == 1);
    forall i | 8 * n <= i < 8 * n + 8 ensures i / 8 == n && i % 8 == i - 8 * n {
    }
  }

  lemma ByteWeight(m: Vec, bits: Vec, c: nat)
    requires c < 256 && |bits| == 8 && forall j :: 0 <= j < 8 ==> bits[j] == (BitOf(c, 7 - j) == 1)
    ensures BinaryValue(m + bits) == 256 * BinaryValue(m) + c
  {
    BinaryValueOfBits(m, bits, c, 8);
    assert bits[..8] == bits;
    assert Pow2(4) == 16;
    assert Pow2(8) == 256;
  }

  /** The bits of a text are the binary digits of the number whose digits to base 256 are its characters. */
  lemma {:induction false} MessageBitsValue(input: seq<nat>)
    requires AreCharacters(input)
    ensures BinaryValue(MessageBits(input)) == CharsValue(input)
  {
    if input == [] {
      assert MessageBits(input) == [];
    } else {
      var init, c := input[..|input| - 1], input[|input| - 1];
      MessageBitsValue(init);
      assert input == init + [c];
      var bits := MessageBitsNext(init, c);
      ByteWeight(MessageBits(init), bits, c);
    }
  }

  // ----- encoder -----

  method InputMatrix(input: seq<nat>) returns (M: Mat)
    requires AreCharacters(input)
    ensures fresh(M) && M.Length0 == 8 * |input| && M.Length1 == 1 && IsBinary(M)
    ensures Column(M) == MessageBits(input)
  {
    var inputBits := 8 * |input|;
    M := new int[inputBits, 1]((i, j) => 0);
    for i := 0 to inputBits
      invariant IsBinary(M)
      invariant forall r :: 0 <= r < i ==> M[r, 0] == BitOf(input[r / 8], 7 - r % 8)
    {
      var byte := i / 8;
      var bit := 7 - i % 8;
      M[i, 0] := BitOf(input[byte], bit);
    }
  }

  datatype EncodeResult = Encoded(bits: seq<int>) | NoMatrix | InputSizeMismatch | MessageSizeMismatch

  ghost predicate AreBits(bits: seq<int>) {
    forall i :: 0 <= i < |bits| ==> bits[i] == 0 || bits[i] == 1
  }

  ghost function FromBits(bits: seq<int>): Vec {
    seq(|bits|, i requires 0 <= i < |bits| => bits[i] == 1)
  }

  /** The bits printed for a column vector. */
  method PrintedBits(M: Mat) returns (bits: seq<int>)
    requires M.Length1 == 1 && IsBinary(M)
    ensures |bits| == M.Length0 && AreBits(bits) && FromBits(bits) == Column(M)
  {
    bits := [];
    for i := 0 to M.Length0
      invariant |bits| == i && forall r :: 0 <= r < i ==> bits[r] == M[r, 0]
    {
      bits := bits + [M[i, 0]];
    }
  }

  lemma RankDecides(H: Matrix, n: nat, k: nat, b: nat)
    requires IsMatrix(H, |H|, n) && k <= n && HasRank(H, n, n - k) && n == 2 * b
    ensures HasRank(H, n, b) <==> k == b
  {
    if HasRank(H, n, b) {
      RankIsUnique(H, n, n - k, b);
    }
  }

  /** G m for a column m of bits. */
  method EncodeColumn(G: Mat, m: Mat) returns (x: Mat)
    requires IsBinary(G) && IsBinary(m) && m.Length0 == G.Length1 && m.Length1 == 1
    ensures fresh(x) && x.Length0 == G.Length0 && x.Length1 == 1 && IsBinary(x)
    ensures Column(x) == Apply(Bits(G), Column(m))
  {
    x := BinaryProduct(G, m);
    ResiduesOfBits(G);
    ResiduesOfBits(m);
    ProductWithColumn(Bits(G), m, x);
  }

  method EncodeBits(G: Mat, input: seq<nat>) returns (codeword: Mat)
    requires IsBinary(G) && AreCharacters(input) && G.Length1 == 8 * |input|
    ensures fresh(codeword) && codeword.Length0 == G.Length0 && codeword.Length1 == 1 && IsBinary(codeword)
    ensures Column(codeword) == Apply(Bits(G), MessageBits(input))
  {
    var inputMatrix := InputMatrix(input);
    codeword := EncodeColumn(G, inputMatrix);
  }

  /** runEncode with a given parity check matrix. The product with the coding matrix only exists when the rank of H
      leaves exactly as many free bits as the input has. */
  method RunEncode(H: Mat, input: seq<nat>) returns (r: EncodeResult)
    requires IsBinary(H) && H.Length0 > 0 && H.Length1 > 0 && AreCharacters(input)
    ensures (r == InputSizeMismatch <==> H.Length1 != 16 * |input|) && r != NoMatrix
    ensures r.Encoded? <==> H.Length1 == 16 * |input| && HasRank(Bits(H), H.Length1, 8 * |input|)
    ensures r.Encoded? ==>
              && |r.bits| == H.Length1 && AreBits(r.bits)
              && Apply(Bits(H), FromBits(r.bits)) == Zero(H.Length0)
              && IsMatrix(CodingMatrixOf(Bits(H), H.Length1), H.Length1, 8 * |input|)
              && FromBits(r.bits) == Apply(CodingMatrixOf(Bits(H), H.Length1), MessageBits(input))
  {
    var inputBits := 8 * |input|;
    if H.Length1 != inputBits * 2 {
      return InputSizeMismatch;
    }
    ghost var H0 := Bits(H);
    var G := CodingMatrix(H);
    RankDecides(H0, H.Length1, G.Length1, inputBits);
    if G.Length1 != inputBits {
      return MessageSizeMismatch;
    }
    var codeword := EncodeBits(G, input);
    var bits := PrintedBits(codeword);
    return Encoded(bits);
  }

  // ----- decoder -----

  method ComposeByte(y: Mat, i: nat) returns (byte: seq<bool>)
    requires y.Length0 == 1 && IsBinary(y) && i % 8 == 0 && i + 8 <= y.Length1
    ensures byte == ByteAt(Bits(y)[0], i / 8)
  {
    var cells := new bool[8](_ => false);
    for j := 0 to 8
      invariant forall q :: 8 - j <= q < 8 ==> cells[q] == Bits(y)[0][i + 7 - q]
    {
      cells[7 - j] := y[0, i + j] == 1;
    }
    byte := cells[..];
  }

  /** The loop of runDecode that composes bits into characters. */
  method ComposeChars(y: Mat) returns (output: seq<nat>)
    requires y.Length0 == 1 && IsBinary(y)
    ensures output == CharsOf(Bits(y)[0])
  {
    ghost var m := Bits(y)[0];
    output := [];
    var i := 0;
    while i < y.Length1
      invariant i == 8 * |output| && i <= y.Length1
      invariant forall r :: 0 <= r < |output| ==> output[r] == ToUlong(ByteAt(m, r), 8)
    {
      if i + 8 > y.Length1 {
        break;
      }
      var byte := ComposeByte(y, i);
      output := output + [ToUlong(byte, 8)];
      i := i + 8;
    }
  }

  method FromPrintedBits(bits: seq<int>) returns (x: Mat)
    requires AreBits(bits)
    ensures fresh(x) && x.Length0 == |bits| && x.Length1 == 1 && IsBinary(x) && Column(x) == FromBits(bits)
  {
    x := new int[|bits|, 1]((i, j) requires 0 <= i < |bits| => bits[i]);
  }

  /** runDecode from the point where belief propagation has delivered the codeword d. */
  method RunDecode(H: Mat, d: seq<int>, beyond: Memory) returns (output: seq<nat>)
    requires IsBinary(H) && H.Length0 > 0 && H.Length1 > 0
    requires AreBits(d) && |d| == H.Length1
    requires !HasRank(Bits(H), H.Length1, H.Length1)
    ensures forall m: Vec {:trigger CharsOf(m)} :: IsMatrix(CodingMatrixOf(Bits(H), H.Length1), H.Length1, |m|) ==>
              (Apply(CodingMatrixOf(Bits(H), H.Length1), m) == FromBits(d) ==> output == CharsOf(m))
  {
    var G := CodingMatrix(H);
    var x := FromPrintedBits(d);
    var y := GetMessageFromCodeword(G, x, beyond);
    output := ComposeChars(y);
  }

  // ----- what the coder is for -----

  lemma FreshMatrixDecides(B: Matrix, n: nat)
    requires GeneratorOutcome(B, n)
    ensures IsMatrix(Representatives(B), n / 2, n)
    ensures HasRank(B, n, n / 2) <==> IndependentRows(Representatives(B), n)
  {
    RepresentativesSpan(B, n);
    if HasRank(B, n, n / 2) {
      RankAtMostHalf(B, n, n / 2);
    }
  }

  lemma FreshMatrixFacts(n: nat, rng: (nat, nat) -> nat)
    requires n % 2 == 0 && n >= 4
    ensures IsMatrix(OutcomeOf(n, rng), n - 2, n)
    ensures HasRank(OutcomeOf(n, rng), n, n / 2) <==> DrawsFullRank(n, rng)
    ensures n >= 6 && StaysPut(rng) ==> !DrawsFullRank(n, rng)
  {
    OutcomeIsGenerated(n, rng);
    FreshMatrixDecides(OutcomeOf(n, rng), n);
    if n >= 6 && StaysPut(rng) {
      ShortfallPossible(n, rng);
    }
  }

  lemma FreshRankDecides(n: nat, b: nat, B: Matrix, rng: (nat, nat) -> nat)
    requires n == 2 * b && n >= 6 && B == OutcomeOf(n, rng)
    ensures HasRank(B, n, b) <==> DrawsFullRank(n, rng)
    ensures StaysPut(rng) ==> !DrawsFullRank(n, rng)
  {
    FreshMatrixFacts(n, rng);
  }

  /** The coding matrix of a fresh parity check matrix has at least half as many columns as rows, and just half as
      many when the shuffles made no representative row redundant. */
  method FreshCodingMatrix(n: nat, rng: (nat, nat) -> nat) returns (G: Mat)
    requires n % 2 == 0 && n >= 4
    ensures G.Length0 == n && G.Length1 >= n / 2
    ensures G.Length1 == n / 2 <==> DrawsFullRank(n, rng)
  {
    var g := ParityCheckMatrix(n, rng);
    G := CodingMatrix(g.H);
    OutcomeIsGenerated(n, rng);
    RankAtMostHalf(OutcomeOf(n, rng), n, n - G.Length1);
  }

  /** runEncode without a matrix file. The empty input asks for a matrix with a negative number of rows and fails. Any
      other input is met by a matrix that fits it, and encoding succeeds just when the shuffles made no representative
      row redundant; a drawing that moves nothing makes it fail for every input. */
  method EncodeWithFreshMatrix(input: seq<nat>, rng: (nat, nat) -> nat) returns (g: Generated, r: EncodeResult)
    requires AreCharacters(input)
    ensures (r == NoMatrix <==> input == []) && (g.Failed? <==> input == []) && r != InputSizeMismatch
    ensures input != [] ==>
              && IsBinary(g.H) && g.H.Length0 == 16 * |input| - 2 && g.H.Length1 == 16 * |input|
              && Bits(g.H) == OutcomeOf(16 * |input|, rng)
    ensures input != [] ==> (r.Encoded? <==> DrawsFullRank(16 * |input|, rng))
    ensures input != [] && StaysPut(rng) ==> r == MessageSizeMismatch
  {
    var n := 16 * |input|;
    assert n == 2 * (8 * |input|);
    g := ParityCheckMatrix(n, rng);
    r := NoMatrix;
    if g.Generated? {
      FreshRankDecides(n, 8 * |input|, Bits(g.H), rng);
      r := RunEncode(g.H, input);
    }
  }

  /** For every input there is a drawing with which encoding succeeds. */
  lemma SomeDrawingEncodes(input: seq<nat>) returns (rng: (nat, nat) -> nat)
    requires input != []
    ensures DrawsFullRank(16 * |input|, rng)
  {
    var n := 16 * |input|;
    assert n == 2 * (8 * |input|);
    rng := FullRankPossible(n);
  }

  /** Decoding undoes encoding, for every parity check matrix that admits the input. */
  method EncodeThenDecode(H: Mat, input: seq<nat>, beyond: Memory) returns (r: EncodeResult, output: seq<nat>)
    requires IsBinary(H) && H.Length0 > 0 && H.Length1 > 0 && AreCharacters(input)
    ensures r.Encoded? <==> H.Length1 == 16 * |input| && HasRank(Bits(H), H.Length1, 8 * |input|)
    ensures r.Encoded? ==> output == input
  {
    r := RunEncode(H, input);
    output := [];
    if r.Encoded? {
      ghost var n, G, m := H.Length1, CodingMatrixOf(Bits(H), H.Length1), MessageBits(input);
      if HasRank(Bits(H), n, n) {
        RankIsUnique(Bits(H), n, n, 8 * |input|);
      }
      output := RunDecode(H, r.bits, beyond);
      assert Apply(G, m) == FromBits(r.bits);
      CharsOfMessageBits(input);
      assert output == CharsOf(m);
    }
  }

  /** Every message that the code carries comes back, whatever the memory beyond the matrix holds. */
  method MessageRoundTrip(H: Mat, m: Mat, beyond: Memory) returns (message: Mat)
    requires IsBinary(H) && H.Length0 > 0 && H.Length1 > 0 && IsBinary(m)
    requires 1 <= m.Length0 <= H.Length1 && m.Length1 == 1
    requires HasRank(Bits(H), H.Length1, H.Length1 - m.Length0)
    ensures message.Length0 == 1 && message.Length1 == m.Length0 && Bits(message)[0] == Column(m)
  {
    ghost var H0 := Bits(H);
    var G := CodingMatrix(H);
    RankIsUnique(H0, H.Length1, H.Length1 - m.Length0, H.Length1 - G.Length1);
    var codeword := EncodeColumn(G, m);
    message := GetMessageFromCodeword(G, codeword, beyond);
    assert Encodes(Bits(G), Column(m), Column(codeword));
  }

  /** The codeword of the message that getMessageFromCodeword extracts from x. */
  method Reencode(G: Mat, x: Mat, beyond: Memory) returns (y: Mat)
    requires IsBinary(G) && IsBinary(x) && x.Length0 == G.Length0 && x.Length1 == 1
    requires 1 <= G.Length1 <= G.Length0 && IndependentColumns(Bits(G), G.Length1)
    ensures y.Length0 == x.Length0 && y.Length1 == 1
    ensures exists m: Vec :: |m| == G.Length1 && Apply(Bits(G), m) == Column(y)
    ensures forall m: Vec :: |m| == G.Length1 && Apply(Bits(G), m) == Column(x) ==> Column(y) == Column(x)
  {
    var message := GetMessageFromCodeword(G, x, beyond);
    var column := ToColumn(message);
    y := EncodeColumn(G, column);
    assert |Column(column)| == G.Length1;
    forall m: Vec | |m| == G.Length1 && Apply(Bits(G), m) == Column(x) ensures Column(y) == Column(x) {
      assert Encodes(Bits(G), m, Column(x));
    }
  }

  /** Whatever isCodeWord accepts is reproduced by encoding the message that is extracted from it, and nothing else
      is. */
  method ReencodeCodeword(H: Mat, x: Mat, beyond: Memory) returns (accepted: bool, y: Mat)
    requires IsBinary(H) && H.Length0 > 0 && H.Length1 > 0 && IsBinary(x)
    requires x.Length0 == H.Length1 && x.Length1 == 1
    requires !HasRank(Bits(H), H.Length1, H.Length1)
    ensures accepted <==> Apply(Bits(H), Column(x)) == Zero(H.Length0)
    ensures y.Length0 == x.Length0 && y.Length1 == 1
    ensures accepted <==> Column(y) == Column(x)
  {
    accepted := IsCodeWord(H, x);
    var G := CodingMatrix(H);
    y := Reencode(G, x, beyond);
  }
}
