/** The integer arithmetic that turns the byte count of a running download into
    progress-bar values (Main.downloadFile). Java's long division truncates toward zero
    and its (int) cast wraps to 32 bits; both are written out here. */
module Progress {
  import opened Files

  function Abs(x: int): nat
  {
    if x < 0 then -x else x
  }

  /** Java's `/` on long: the quotient truncated toward zero. */
  function JavaDiv(a: int, b: int): int
    requires b != 0
  {
    if (a < 0) == (b < 0) then Abs(a) / Abs(b) else -(Abs(a) / Abs(b))
  }

  /** Java's narrowing (int) cast and int overflow: wrap into [-2^31, 2^31). */
  function ToInt32(x: int): (r: int)
    ensures -0x8000_0000 <= r < 0x8000_0000
    ensures -0x8000_0000 <= x < 0x8000_0000 ==> r == x
  {
    (x + 0x8000_0000) % 0x1_0000_0000 - 0x8000_0000
  }

  /** `onePercent = fileSize / 100` (line 361). */
  function OnePercent(fileSize: int): int
  {
    JavaDiv(fileSize, 100)
  }

  /** `percent = fileChannel.size() / onePercent` (line 372); None is the
      ArithmeticException thrown when onePercent is zero. */
  function PercentOf(size: int, fileSize: int): (r: Option<int>)
    ensures r.None? <==> -100 < fileSize < 100
  {
    var onePercent := OnePercent(fileSize);
    if onePercent == 0 then None else Some(JavaDiv(size, onePercent))
  }

  /** The bar value while memate.exe downloads: `(int) (percent / 5) + 10` (line 376). */
  function ExeStage(percent: int): (v: int)
    ensures 0 <= percent <= 100 ==> 10 <= v <= 30
  {
    ToInt32(ToInt32(JavaDiv(percent, 5)) + 10)
  }

  /** The bar value while version.properties downloads: `(int) (percent / 10)` (line 378). */
  function VersionStage(percent: int): (v: int)
    ensures 0 <= percent <= 100 ==> 0 <= v <= 10
  {
    ToInt32(JavaDiv(percent, 10))
  }

  /** Whenever the declared size is at least 10000 bytes and no more than that has been
      written, the percentage lies in [0, 100]. */
  lemma PercentWithinHundred(size: int, fileSize: int)
    requires 10000 <= fileSize && 0 <= size <= fileSize
    ensures PercentOf(size, fileSize).Some?
    ensures 0 <= PercentOf(size, fileSize).value <= 100
  {
    var k := fileSize / 100;
    assert OnePercent(fileSize) == k;
    assert 100 <= k;
    var r := fileSize % 100;
    assert fileSize == 100 * k + r && r < k;
    assert size < 101 * k;
    DivBelow(size, k, 101);
    assert PercentOf(size, fileSize) == Some(size / k);
  }

  lemma DivBelow(a: nat, k: nat, q: nat)
    requires 0 < k && a < q * k
    ensures a / k < q
  {
    var d := a / k;
    assert k * d <= a;
    MulMonotone(k, q, d);
  }

  lemma {:induction false} MulMonotone(k: nat, x: nat, y: nat)
    ensures x <= y ==> k * x <= k * y
    decreases y
  {
    if x < y {
      MulMonotone(k, x, y - 1);
      assert k * y == k * (y - 1) + k;
    }
  }

  /** Because onePercent is rounded down, a file of fewer than 10000 bytes can report
      more than 100 percent: a 150-byte version.properties reaches 150 percent and the
      bar value 15, past the 10 its stage is meant to end at, and a 199-byte memate.exe
      would reach 199 percent and the bar value 49, past 30. */
  lemma SmallFileOvershoot()
    ensures PercentOf(150, 150) == Some(150) && VersionStage(150) == 15
    ensures PercentOf(199, 199) == Some(199) && ExeStage(199) == 49
  {
    assert OnePercent(150) == 1 && OnePercent(199) == 1;
    assert JavaDiv(150, 1) == 150 && JavaDiv(199, 1) == 199;
    assert JavaDiv(150, 10) == 15 && JavaDiv(199, 5) == 39;
    assert ToInt32(15) == 15 && ToInt32(39) == 39 && ToInt32(49) == 49;
  }

  /** The percentage as evidently intended: the bytes written times 100 over the declared
      size, undefined only when the size is not positive. */
  function ScaledPercentOf(size: int, fileSize: int): (r: Option<int>)
    ensures r.None? <==> fileSize <= 0
  {
    if fileSize <= 0 then None else Some(JavaDiv(size * 100, fileSize))
  }

  /** For every positive declared size, the intended percentage of a partial download lies
      in [0, 100], so both stage values stay in their bands. */
  lemma ScaledPercentWithinHundred(size: int, fileSize: int)
    requires 0 < fileSize && 0 <= size <= fileSize
    ensures ScaledPercentOf(size, fileSize).Some?
    ensures 0 <= ScaledPercentOf(size, fileSize).value <= 100
    ensures 10 <= ExeStage(ScaledPercentOf(size, fileSize).value) <= 30
    ensures 0 <= VersionStage(ScaledPercentOf(size, fileSize).value) <= 10
  {
    assert JavaDiv(size * 100, fileSize) == (size * 100) / fileSize;
    MulMonotone(100, size, fileSize);
    assert size * 100 < 101 * fileSize;
    DivBelow(size * 100, fileSize, 101);
  }

  /** More bytes written never gives a smaller percentage. */
  lemma PercentMonotone(size1: int, size2: int, fileSize: int)
    requires 100 <= fileSize && 0 <= size1 <= size2
    ensures PercentOf(size1, fileSize).value <= PercentOf(size2, fileSize).value
  {
    var k := fileSize / 100;
    assert OnePercent(fileSize) == k && 0 < k;
    DivMonotone(size1, size2, k);
  }

  lemma DivMonotone(a: nat, b: nat, k: nat)
    requires 0 < k && a <= b
    ensures a / k <= b / k
  {
    var c, d := a / k, b / k;
    assert k * c <= a;
    assert b < k * d + k;
    assert k * d + k == k * (d + 1);
    MulMonotone(k, d + 1, c);
  }

  /** Within [0, 100] both stage values move with the percentage. */
  lemma StagesMonotone(p: int, q: int)
    requires 0 <= p <= q <= 100
    ensures ExeStage(p) <= ExeStage(q)
    ensures VersionStage(p) <= VersionStage(q)
  {
    DivMonotone(p, q, 5);
    DivMonotone(p, q, 10);
  }
}
