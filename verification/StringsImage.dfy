/** The single memory block of a `StringsBulk`: a header with the size of the block and the
    number of strings, a 32-bit offset for each string, and the characters with terminators. */
module StringsImage {
  import opened Arith

  type Byte = b: int | 0 <= b < 0x100

  type Bytes = seq<Byte>

  /** A byte of freshly allocated memory, before and after its first write. */
  datatype Cell = Unwritten | Written(b: Byte)

  const HEADER: nat := 16
  const U32: nat := 0x1_0000_0000
  const U64: nat := 0x1_0000_0000_0000_0000

  // ---------------------------------------------------------------- numbers in memory

  /** `n` as `k` little-endian bytes. */
  function Little(n: nat, k: nat): (s: Bytes)
    ensures |s| == k
  {
    if k == 0 then [] else [n % 0x100] + Little(n / 0x100, k - 1)
  }

  function Number(s: Bytes): nat
  {
    if s == [] then 0 else s[0] + 0x100 * Number(s[1..])
  }

  /** Number of values of `k` bytes. */
  ghost function Range(k: nat): nat
  {
    if k == 0 then 1 else 0x100 * Range(k - 1)
  }

  lemma {:induction false} NumberOfLittle(n: nat, k: nat)
    requires n < Range(k)
    ensures Number(Little(n, k)) == n
  {
    if k > 0 {
      NumberOfLittle(n / 0x100, k - 1);
      assert Little(n, k)[1..] == Little(n / 0x100, k - 1);
    }
  }

  lemma Ranges()
    ensures Range(4) == U32 && Range(8) == U64
  {
    assert Range(2) == 0x1_0000 && Range(4) == 0x1_0000 * Range(2);
    assert Range(6) == 0x1_0000 * Range(4) && Range(8) == 0x1_0000 * Range(6);
  }

  // ---------------------------------------------------------------- layout

  /** The characters of the first `i` strings, each with its terminator. */
  function Chars(strings: seq<Bytes>, i: nat): Bytes
    requires i <= |strings|
  {
    if i == 0 then [] else Chars(strings, i - 1) + strings[i - 1] + [0]
  }

  /** Distance of string `i` from the start of the block. */
  function Offset(strings: seq<Bytes>, i: nat): nat
    requires i <= |strings|
  {
    HEADER + 4 * |strings| + |Chars(strings, i)|
  }

  /** The offsets of the first `i` strings, cut to 32 bits each. */
  function Offsets(strings: seq<Bytes>, i: nat): (s: Bytes)
    requires i <= |strings|
    ensures |s| == 4 * i
  {
    if i == 0 then [] else Offsets(strings, i - 1) + Little(Offset(strings, i - 1) % U32, 4)
  }

  /** Size of the block. */
  function Size(strings: seq<Bytes>): nat { Offset(strings, |strings|) }

  function Header(strings: seq<Bytes>): (s: Bytes)
    ensures |s| == HEADER
  {
    Little(Size(strings), 8) + Little(|strings|, 8)
  }

  /** The content a built block must have. */
  function Image(strings: seq<Bytes>): (s: Bytes)
    ensures |s| == Size(strings)
  {
    Header(strings) + Offsets(strings, |strings|) + Chars(strings, |strings|)
  }

  // ---------------------------------------------------------------- building

  function Cells(s: Bytes): (c: seq<Cell>)
    ensures |c| == |s| && forall i :: 0 <= i < |s| ==> c[i] == Written(s[i])
  {
    seq(|s|, i requires 0 <= i < |s| => Written(s[i]))
  }

  function Blank(n: nat): (c: seq<Cell>)
    ensures |c| == n && forall i :: 0 <= i < n ==> c[i] == Unwritten
  {
    seq(n, _ => Unwritten)
  }

  /** The block once the first `i` strings are stored and the first `j` offsets: what is not yet
      stored is unwritten. */
  ghost function Partial(strings: seq<Bytes>, j: nat, i: nat): (c: seq<Cell>)
    requires i <= |strings| && j <= |strings|
  {
    CharsGrow(strings, i, |strings|);
    Cells(Header(strings) + Offsets(strings, j)) + Blank(4 * (|strings| - j)) + Tail(strings, i)
  }

  ghost function Tail(strings: seq<Bytes>, i: nat): (c: seq<Cell>)
    requires i <= |strings|
  {
    CharsGrow(strings, i, |strings|);
    Cells(Chars(strings, i)) + Blank(|Chars(strings, |strings|)| - |Chars(strings, i)|)
  }

  function Overwrite(s: seq<Cell>, at: nat, d: seq<Cell>): (r: seq<Cell>)
    requires at + |d| <= |s|
    ensures |r| == |s|
  {
    s[..at] + d + s[at + |d|..]
  }

  ghost predicate BlankAt(s: seq<Cell>, at: nat, n: nat)
  {
    at + n <= |s| && forall k :: at <= k < at + n ==> s[k] == Unwritten
  }

  /** Writing at the start of an unwritten stretch. */
  lemma FillBlank(p: seq<Cell>, k: nat, q: seq<Cell>, d: seq<Cell>)
    requires |d| <= k
    ensures BlankAt(p + Blank(k) + q, |p|, |d|)
    ensures Overwrite(p + Blank(k) + q, |p|, d) == p + d + Blank(k - |d|) + q
  {
    var s := p + Blank(k) + q;
    assert s[..|p|] == p;
    assert s[|p| + |d|..] == Blank(k - |d|) + q;
  }

  lemma OverwriteTwice(s: seq<Cell>, at: nat, d: seq<Cell>, e: seq<Cell>)
    requires at + |d| + |e| <= |s|
    ensures Overwrite(Overwrite(s, at, d), at + |d|, e) == Overwrite(s, at, d + e)
    ensures BlankAt(s, at, |d| + |e|) ==> BlankAt(s, at, |d|) && BlankAt(Overwrite(s, at, d), at + |d|, |e|)
  {
  }

  lemma {:induction false} CharsGrow(strings: seq<Bytes>, i: nat, j: nat)
    requires i <= j <= |strings|
    ensures |Chars(strings, i)| + (j - i) <= |Chars(strings, j)|
    ensures Chars(strings, i) <= Chars(strings, j)
    decreases j
  {
    if i < j { CharsGrow(strings, i, j - 1); }
  }

  /** `memcpy` and single stores: every byte of the range is written for the first time. */
  method Write(block: array<Cell>, at: nat, data: Bytes)
    requires BlankAt(block[..], at, |data|)
    modifies block
    ensures block[..] == Overwrite(old(block[..]), at, Cells(data))
  {
    ghost var before := block[..];
    for i := 0 to |data|
      invariant forall k :: 0 <= k < block.Length ==>
                  block[k] == if at <= k < at + i then Written(data[k - at]) else before[k]
    {
      block[at + i] := Written(data[i]);
    }
  }

  lemma CellsJoin(a: Bytes, b: Bytes)
    ensures Cells(a + b) == Cells(a) + Cells(b)
  {
  }

  lemma OffsetStored(strings: seq<Bytes>, i: nat)
    requires i < |strings|
    ensures BlankAt(Partial(strings, i, i), HEADER + 4 * i, 4)
    ensures Overwrite(Partial(strings, i, i), HEADER + 4 * i, Cells(Little(Offset(strings, i) % U32, 4)))
            == Partial(strings, i + 1, i)
  {
    var p, little := Header(strings) + Offsets(strings, i), Little(Offset(strings, i) % U32, 4);
    FillBlank(Cells(p), 4 * (|strings| - i), Tail(strings, i), Cells(little));
    CellsJoin(p, little);
    NextOffset(strings, i);
  }

  lemma NextOffset(strings: seq<Bytes>, i: nat)
    requires i < |strings|
    ensures Header(strings) + Offsets(strings, i + 1) ==
            Header(strings) + Offsets(strings, i) + Little(Offset(strings, i) % U32, 4)
  {
  }

  /** Writing `data` after the characters `c`, where `rest` bytes are still unwritten. */
  lemma DataStored(front: seq<Cell>, c: Bytes, rest: nat, data: Bytes)
    requires |data| <= rest
    ensures BlankAt(front + (Cells(c) + Blank(rest)), |front| + |c|, |data|)
    ensures Overwrite(front + (Cells(c) + Blank(rest)), |front| + |c|, Cells(data))
            == front + (Cells(c + data) + Blank(rest - |data|))
  {
    FillBlank(front + Cells(c), rest, [], Cells(data));
    assert front + (Cells(c) + Blank(rest)) == front + Cells(c) + Blank(rest) + [];
    CellsJoin(c, data);
  }

  lemma NextChars(strings: seq<Bytes>, i: nat)
    requires i < |strings|
    ensures Chars(strings, i + 1) == Chars(strings, i) + (strings[i] + [0])
    ensures |Chars(strings, i + 1)| <= |Chars(strings, |strings|)|
  {
    CharsGrow(strings, i + 1, |strings|);
  }

  lemma StringStored(strings: seq<Bytes>, i: nat)
    requires i < |strings|
    ensures BlankAt(Partial(strings, i + 1, i), Offset(strings, i), |strings[i]| + 1)
    ensures Overwrite(Partial(strings, i + 1, i), Offset(strings, i), Cells(strings[i] + [0]))
            == Partial(strings, i + 1, i + 1)
  {
    var n, c, data := |strings|, Chars(strings, i), strings[i] + [0];
    NextChars(strings, i);
    var front := Cells(Header(strings) + Offsets(strings, i + 1)) + Blank(4 * (n - i - 1));
    DataStored(front, c, |Chars(strings, n)| - |c|, data);
  }

  lemma Finished(strings: seq<Bytes>)
    ensures Partial(strings, |strings|, |strings|) == Cells(Image(strings))
  {
    var n := |strings|;
    CellsJoin(Header(strings) + Offsets(strings, n), Chars(strings, n));
  }

  lemma PartialStart(strings: seq<Bytes>)
    ensures Partial(strings, 0, 0) == Cells(Header(strings)) + Blank(Size(strings) - HEADER)
  {
    assert Header(strings) + Offsets(strings, 0) == Header(strings);
    assert Blank(Size(strings) - HEADER) == Blank(4 * |strings|) + Tail(strings, 0);
  }

  /** The two numbers of the header are written at the start of an unwritten block. */
  lemma NumbersStored(n: nat, size: Bytes, number: Bytes)
    requires |size| == |number| == 8 && HEADER <= n
    ensures BlankAt(Blank(n), 0, 8) && BlankAt(Overwrite(Blank(n), 0, Cells(size)), 8, 8)
    ensures Overwrite(Overwrite(Blank(n), 0, Cells(size)), 8, Cells(number)) == Cells(size + number) + Blank(n - HEADER)
  {
    var one := Overwrite(Blank(n), 0, Cells(size));
    assert one == Cells(size) + Blank(n - 8);
    CellsJoin(size, number);
    assert Overwrite(one, 8, Cells(number)) == Cells(size) + Cells(number) + Blank(n - HEADER);
  }

  /** `Allocate`: a block of the right size, with only the header written. */
  method Allocate(ghost strings: seq<Bytes>, count: nat, totalChars: nat) returns (block: array<Cell>)
    requires count == |strings| && totalChars == |Chars(strings, count)|
    ensures fresh(block) && block[..] == Partial(strings, 0, 0)
  {
    var bytes := HEADER + 4 * count + totalChars;
    block := new Cell[bytes](_ => Unwritten);
    assert block[..] == Blank(bytes);
    NumbersStored(bytes, Little(bytes, 8), Little(count, 8));
    PartialStart(strings);
    Write(block, 0, Little(bytes, 8));
    Write(block, 8, Little(count, 8));
  }

  method TotalBytesForChars(strings: seq<Bytes>) returns (total: nat)
    ensures total == |Chars(strings, |strings|)|
  {
    total := 0;
    for i := 0 to |strings|
      invariant total == |Chars(strings, i)|
    {
      total := total + |strings[i]| + 1;
    }
  }

  /** `offsets[index] = uint32_t(storage - ctrl)`. */
  method StoreOffset(block: array<Cell>, ghost strings: seq<Bytes>, index: nat, storage: nat)
    requires index < |strings| && block[..] == Partial(strings, index, index) && storage == Offset(strings, index)
    modifies block
    ensures block[..] == Partial(strings, index + 1, index)
  {
    OffsetStored(strings, index);
    Write(block, HEADER + 4 * index, Little(storage % U32, 4));
  }

  /** Copies the characters, then stores the terminator. */
  method WriteTerminated(block: array<Cell>, at: nat, data: Bytes)
    requires BlankAt(block[..], at, |data| + 1)
    modifies block
    ensures block[..] == Overwrite(old(block[..]), at, Cells(data + [0]))
  {
    OverwriteTwice(block[..], at, Cells(data), Cells([0]));
    CellsJoin(data, [0]);
    Write(block, at, data);
    Write(block, at + |data|, [0]);
  }

  /** One pass of the loop of `NonOwningBuilder::Build`; the new position of `storage`. */
  method StoreNonOwning(block: array<Cell>, strings: seq<Bytes>, index: nat, at: nat) returns (storage: nat)
    requires index < |strings| && block[..] == Partial(strings, index, index) && at == Offset(strings, index)
    modifies block
    ensures block[..] == Partial(strings, index + 1, index + 1) && storage == Offset(strings, index + 1)
  {
    StoreOffset(block, strings, index, at);
    StringStored(strings, index);
    WriteTerminated(block, at, strings[index]);
    storage := at + |strings[index]| + 1;
  }

  /** One pass of the loop of `Builder::Build`. */
  method StoreOwning(block: array<Cell>, strings: seq<Bytes>, index: nat, at: nat) returns (storage: nat)
    requires index < |strings| && block[..] == Partial(strings, index, index) && at == Offset(strings, index)
    modifies block
    ensures block[..] == Partial(strings, index + 1, index + 1) && storage == Offset(strings, index + 1)
  {
    StoreOffset(block, strings, index, at);
    var stringBytes := |strings[index]| + 1;
    StringStored(strings, index);
    Write(block, at, strings[index] + [0]);
    storage := at + stringBytes;
  }

  /** `NonOwningBuilder::Build`: copies each string, then stores its terminator. */
  method BuildNonOwning(strings: seq<Bytes>) returns (block: array<Cell>)
    requires strings != []
    ensures fresh(block) && block[..] == Cells(Image(strings))
  {
    var totalChars := TotalBytesForChars(strings);
    block := Allocate(strings, |strings|, totalChars);
    var storage := HEADER + 4 * |strings|;
    for index := 0 to |strings|
      invariant fresh(block) && block[..] == Partial(strings, index, index)
      invariant storage == Offset(strings, index)
    {
      storage := StoreNonOwning(block, strings, index, storage);
    }
    Finished(strings);
  }

  /** `Builder::Build`: copies each string together with the terminator that follows it. */
  method BuildOwning(strings: seq<Bytes>) returns (block: array<Cell>)
    requires strings != []
    ensures fresh(block) && block[..] == Cells(Image(strings))
  {
    var totalChars := TotalBytesForChars(strings);
    block := Allocate(strings, |strings|, totalChars);
    var storage := HEADER + 4 * |strings|;
    for index := 0 to |strings|
      invariant fresh(block) && block[..] == Partial(strings, index, index)
      invariant storage == Offset(strings, index)
    {
      storage := StoreOwning(block, strings, index, storage);
    }
    Finished(strings);
  }

  // ---------------------------------------------------------------- reading

  /** `Offsets()[i]`. */
  function OffsetAt(m: Bytes, i: nat): nat
    requires HEADER + 4 * i + 4 <= |m|
  {
    Number(m[HEADER + 4 * i..HEADER + 4 * i + 4])
  }

  /** The table of offsets reaches as far as the length of string `i` needs. */
  predicate HasEntry(m: Bytes, i: nat)
  {
    HEADER + 4 * i + 4 <= |m| && (i + 1 < Number(m[8..16]) ==> HEADER + 4 * i + 8 <= |m|)
  }

  /** `StrLen`: the difference of neighbouring offsets in 32-bit arithmetic, and for the last
      string what is left of the block in 64-bit arithmetic. */
  function StrLen(m: Bytes, i: nat): nat
    requires HasEntry(m, i)
  {
    if i + 1 < Number(m[8..16])
    then (OffsetAt(m, i + 1) - OffsetAt(m, i) - 1) % U32
    else (Number(m[..8]) - OffsetAt(m, i) - 1) % U64
  }

  /** Reading string `i` out of the block gives `s` and its terminator. */
  ghost predicate Reads(m: Bytes, i: nat, s: Bytes)
  {
    && HasEntry(m, i)
    && var at := OffsetAt(m, i);
       at + |s| < |m| && StrLen(m, i) == |s| && m[at..at + |s|] == s && m[at + |s|] == 0
  }

  lemma HeaderReads(strings: seq<Bytes>)
    requires Size(strings) < U64
    ensures var m := Image(strings); Number(m[..8]) == Size(strings) && Number(m[8..16]) == |strings|
  {
    var m := Image(strings);
    Ranges();
    NumberOfLittle(Size(strings), 8);
    NumberOfLittle(|strings|, 8);
    assert m[..8] == Little(Size(strings), 8);
    assert m[8..16] == Little(|strings|, 8);
  }

  lemma {:induction false} OffsetInTable(strings: seq<Bytes>, i: nat, n: nat)
    requires i < n <= |strings|
    ensures Offsets(strings, n)[4 * i..4 * i + 4] == Little(Offset(strings, i) % U32, 4)
    decreases n
  {
    if i + 1 < n {
      OffsetInTable(strings, i, n - 1);
      assert Offsets(strings, n)[4 * i..4 * i + 4] == Offsets(strings, n - 1)[4 * i..4 * i + 4];
    }
  }

  lemma OffsetReads(strings: seq<Bytes>, i: nat)
    requires i < |strings|
    ensures |Image(strings)| >= HEADER + 4 * i + 4 && OffsetAt(Image(strings), i) == Offset(strings, i) % U32
  {
    var m := Image(strings);
    OffsetInTable(strings, i, |strings|);
    assert m[HEADER + 4 * i..HEADER + 4 * i + 4] == Offsets(strings, |strings|)[4 * i..4 * i + 4];
    Ranges();
    NumberOfLittle(Offset(strings, i) % U32, 4);
  }

  lemma {:induction false} LittleDigit(n: nat, k: nat, i: nat)
    requires i < k
    ensures Range(i) > 0 && Little(n, k)[i] == n / Range(i) % 0x100
  {
    if i > 0 {
      LittleDigit(n / 0x100, k - 1, i - 1);
      assert Little(n, k)[i] == Little(n / 0x100, k - 1)[i - 1];
      DivideTwice(n, 0x100, Range(i - 1));
    }
  }

  /** Byte by byte, lowest first: the size of the block, the number of strings, the offset of each string
      cut to 32 bits; and at its offset each string with its terminator. */
  lemma Layout(strings: seq<Bytes>, j: nat, i: nat)
    requires j < |strings| && i < 8
    ensures var m := Image(strings);
            && |m| == Size(strings) && Range(i) > 0 && OffsetInBlock(strings, j)
            && m[i] == Size(strings) / Range(i) % 0x100 && m[8 + i] == |strings| / Range(i) % 0x100
            && (i < 4 ==> m[HEADER + 4 * j + i] == Offset(strings, j) % U32 / Range(i) % 0x100)
            && m[Offset(strings, j)..Offset(strings, j + 1)] == strings[j] + [0]
  {
    var m := Image(strings);
    LittleDigit(Size(strings), 8, i);
    LittleDigit(|strings|, 8, i);
    StringInImage(strings, j);
    OffsetInTable(strings, j, |strings|);
    if i < 4 {
      LittleDigit(Offset(strings, j) % U32, 4, i);
      assert Offsets(strings, |strings|)[4 * j..4 * j + 4][i] == Offsets(strings, |strings|)[4 * j + i];
    }
  }

  /** The entry of string `j` and the string lie in the block. */
  ghost predicate OffsetInBlock(strings: seq<Bytes>, j: nat)
    requires j < |strings|
  {
    HEADER + 4 * j + 4 <= Size(strings) && Offset(strings, j + 1) <= Size(strings) && Offset(strings, j) <= Offset(strings, j + 1)
  }

  /** String `i` and its terminator lie between its offset and the next one. */
  lemma StringInImage(strings: seq<Bytes>, i: nat)
    requires i < |strings|
    ensures Offset(strings, i + 1) == Offset(strings, i) + |strings[i]| + 1 <= Size(strings)
    ensures Image(strings)[Offset(strings, i)..Offset(strings, i + 1)] == strings[i] + [0]
  {
    var n, c := |strings|, Chars(strings, i);
    CharsGrow(strings, i + 1, n);
    var all := Chars(strings, n);
    assert Chars(strings, i + 1) == c + (strings[i] + [0]);
    assert all[|c|..|c| + |strings[i]| + 1] == strings[i] + [0];
    assert Image(strings)[Offset(strings, i)..Offset(strings, i + 1)] == all[|c|..|c| + |strings[i]| + 1];
  }

  lemma {:induction false} OffsetsIncrease(strings: seq<Bytes>, i: nat, j: nat)
    requires i < j <= |strings|
    ensures Offset(strings, i) < Offset(strings, j)
  {
    CharsGrow(strings, i, j);
  }

  lemma HasEntries(strings: seq<Bytes>, i: nat)
    requires i < |strings| && Size(strings) < U64
    ensures HasEntry(Image(strings), i)
  {
    HeaderReads(strings);
  }

  lemma OffsetFits(strings: seq<Bytes>, i: nat)
    requires i < |strings| && Offset(strings, |strings| - 1) < U32
    ensures Offset(strings, i) < U32 && OffsetAt(Image(strings), i) == Offset(strings, i)
  {
    if i + 1 < |strings| { OffsetsIncrease(strings, i, |strings| - 1); }
    OffsetReads(strings, i);
    Uncut(Offset(strings, i));
  }

  lemma Uncut(n: nat)
    requires n < U32
    ensures n % U32 == n
  {
  }

  lemma InnerLength(m: Bytes, i: nat, at: nat, next: nat)
    requires HasEntry(m, i) && i + 1 < Number(m[8..16]) && at < next < U32
    requires OffsetAt(m, i) == at && OffsetAt(m, i + 1) == next
    ensures StrLen(m, i) == next - at - 1
  {
  }

  lemma LastLength(m: Bytes, i: nat, at: nat, size: nat)
    requires HasEntry(m, i) && i + 1 >= Number(m[8..16]) && at < size < U64
    requires OffsetAt(m, i) == at && Number(m[..8]) == size
    ensures StrLen(m, i) == size - at - 1
  {
  }

  lemma LengthReads(strings: seq<Bytes>, i: nat)
    requires i < |strings| && Size(strings) < U64 && Offset(strings, |strings| - 1) < U32
    ensures HasEntry(Image(strings), i) && StrLen(Image(strings), i) == |strings[i]|
  {
    HasEntries(strings, i);
    HeaderReads(strings);
    OffsetFits(strings, i);
    StringInImage(strings, i);
    var m := Image(strings);
    if i + 1 < |strings| {
      OffsetFits(strings, i + 1);
      InnerLength(m, i, Offset(strings, i), Offset(strings, i + 1));
    } else {
      LastLength(m, i, Offset(strings, i), Size(strings));
    }
  }

  lemma StoredAt(m: Bytes, at: nat, s: Bytes)
    requires at + |s| < |m| && m[at..at + |s| + 1] == s + [0]
    ensures m[at..at + |s|] == s && m[at + |s|] == 0
  {
    var stored := m[at..at + |s| + 1];
    assert stored[|s|] == 0 && m[at..at + |s|] == stored[..|s|];
  }

  lemma StringReads(strings: seq<Bytes>, i: nat)
    requires i < |strings| && Size(strings) < U64 && Offset(strings, |strings| - 1) < U32
    ensures Reads(Image(strings), i, strings[i])
  {
    LengthReads(strings, i);
    OffsetFits(strings, i);
    StringInImage(strings, i);
    StoredAt(Image(strings), Offset(strings, i), strings[i]);
  }

  lemma LastLengthWrong(strings: seq<Bytes>)
    requires strings != [] && Size(strings) < U64 && U32 <= Offset(strings, |strings| - 1)
    ensures var last := |strings| - 1;
            HasEntry(Image(strings), last) && StrLen(Image(strings), last) != |strings[last]|
  {
    var last := |strings| - 1;
    HasEntries(strings, last);
    HeaderReads(strings);
    OffsetReads(strings, last);
    StringInImage(strings, last);
  }

  /** A built block gives back every string exactly when the last offset fits in 32 bits. */
  lemma ReadsBackIffOffsetsFit(strings: seq<Bytes>)
    requires strings != [] && Size(strings) < U64
    ensures (forall i :: 0 <= i < |strings| ==> Reads(Image(strings), i, strings[i]))
            <==> Offset(strings, |strings| - 1) < U32
  {
    if Offset(strings, |strings| - 1) < U32 {
      forall i | 0 <= i < |strings| ensures Reads(Image(strings), i, strings[i]) { StringReads(strings, i); }
    } else {
      LastLengthWrong(strings);
    }
  }

  /** Different lists of strings have different blocks as long as the blocks can be read back. */
  lemma ImageInjective(a: seq<Bytes>, b: seq<Bytes>)
    requires a != [] && b != [] && Size(a) < U64 && Size(b) < U64 && Image(a) == Image(b)
    requires Offset(a, |a| - 1) < U32 && Offset(b, |b| - 1) < U32
    ensures a == b
  {
    HeaderReads(a);
    HeaderReads(b);
    forall i | 0 <= i < |a| ensures a[i] == b[i] {
      StringReads(a, i);
      StringReads(b, i);
    }
  }
}
