// Disk fragmenter: the dense disk map alternates file and free-space
// lengths; part one moves single file blocks from the end into the leftmost
// gaps, part two moves whole files into the leftmost free span that fits.
module Day9 {

  import opened Common

  datatype Block = File(id: nat, size: nat) | Empty(size: nat)

  /** One position of the expanded disk. */
  datatype Bit = FileBit(fileId: nat) | EmptyBit

  predicate IsDigit(ch: char)
  {
    '0' <= ch <= '9'
  }

  function DigitValue(ch: char): nat
    requires IsDigit(ch)
  {
    ch as int - '0' as int
  }

  /** The disk map read digit by digit: even positions are files numbered 0, 1, 2, ..., odd positions are free space. */
  method Parse(input: seq<char>) returns (blocks: seq<Block>)
    requires forall k :: 0 <= k < |input| ==> IsDigit(input[k])
    ensures |blocks| == |input|
    ensures forall k :: 0 <= k < |input| && k % 2 == 0 ==> blocks[k] == File(k / 2, DigitValue(input[k]))
    ensures forall k :: 0 <= k < |input| && k % 2 == 1 ==> blocks[k] == Empty(DigitValue(input[k]))
  {
    blocks := [];
    var fileId := 0;
    for idx := 0 to |input|
      invariant |blocks| == idx
      invariant fileId == (idx + 1) / 2
      invariant forall k :: 0 <= k < idx && k % 2 == 0 ==> blocks[k] == File(k / 2, DigitValue(input[k]))
      invariant forall k :: 0 <= k < idx && k % 2 == 1 ==> blocks[k] == Empty(DigitValue(input[k]))
    {
      var size := DigitValue(input[idx]);
      if idx % 2 == 0 {
        blocks := blocks + [File(fileId, size)];
        fileId := fileId + 1;
      } else {
        blocks := blocks + [Empty(size)];
      }
    }
  }

  /** The sum of all block sizes. */
  function TotalSize(blocks: seq<Block>): nat
    decreases |blocks|
  {
    if blocks == [] then 0 else TotalSize(blocks[..|blocks| - 1]) + blocks[|blocks| - 1].size
  }

  lemma {:induction false} TotalSizeAppend(a: seq<Block>, b: seq<Block>)
    ensures TotalSize(a + b) == TotalSize(a) + TotalSize(b)
    decreases |b|
  {
    if b == [] {
      assert a + b == a;
    } else {
      assert (a + b)[..|a + b| - 1] == a + b[..|b| - 1];
      TotalSizeAppend(a, b[..|b| - 1]);
    }
  }

  function Repeat(b: Bit, n: nat): (r: seq<Bit>)
    ensures |r| == n && forall k :: 0 <= k < n ==> r[k] == b
  {
    seq(n, _ => b)
  }

  /** The bits of one block: size copies of the file id, or size free positions. */
  function BlockBits(block: Block): (r: seq<Bit>)
    ensures |r| == block.size
  {
    match block
    case File(id, size) => Repeat(FileBit(id), size)
    case Empty(size) => Repeat(EmptyBit, size)
  }

  /** The expanded disk: the blocks' bits in block order. */
  function Layout(blocks: seq<Block>): (disk: seq<Bit>)
    ensures |disk| == TotalSize(blocks)
    decreases |blocks|
  {
    if blocks == [] then [] else Layout(blocks[..|blocks| - 1]) + BlockBits(blocks[|blocks| - 1])
  }

  lemma {:induction false} LayoutAppend(a: seq<Block>, b: seq<Block>)
    ensures Layout(a + b) == Layout(a) + Layout(b)
    decreases |b|
  {
    if b == [] {
      assert a + b == a;
    } else {
      assert (a + b)[..|a + b| - 1] == a + b[..|b| - 1];
      LayoutAppend(a, b[..|b| - 1]);
    }
  }

  /** The expansion as the source performs it: a push per bit. */
  method ExpandDisk(blocks: seq<Block>) returns (disk: seq<Bit>)
    ensures disk == Layout(blocks)
    ensures |disk| == TotalSize(blocks)
  {
    disk := [];
    for k := 0 to |blocks|
      invariant disk == Layout(blocks[..k])
    {
      assert blocks[..k + 1][..k] == blocks[..k];
      var bit := if blocks[k].File? then FileBit(blocks[k].id) else EmptyBit;
      ghost var start := disk;
      for n := 0 to blocks[k].size
        invariant disk == start + Repeat(bit, n)
      {
        disk := disk + [bit];
      }
    }
    assert blocks[..|blocks|] == blocks;
  }

  /** The weight of one bit in the checksum: the file id, or 0 for free space. */
  function BitValue(b: Bit): nat
  {
    match b
    case FileBit(id) => id
    case EmptyBit => 0
  }

  /** The filesystem checksum: the sum of position times bit value. */
  function Checksum(disk: seq<Bit>): (c: nat)
    ensures (forall k :: 0 <= k < |disk| ==> disk[k] == EmptyBit) ==> c == 0
    decreases |disk|
  {
    if disk == [] then 0
    else Checksum(disk[..|disk| - 1]) + (|disk| - 1) * BitValue(disk[|disk| - 1])
  }

  /** Free space never adds to the checksum. */
  lemma {:induction false} TrailingFreeSpaceIsFree(disk: seq<Bit>, n: nat)
    ensures Checksum(disk + Repeat(EmptyBit, n)) == Checksum(disk)
    decreases n
  {
    if n > 0 {
      var longer := disk + Repeat(EmptyBit, n);
      assert longer[..|longer| - 1] == disk + Repeat(EmptyBit, n - 1);
      TrailingFreeSpaceIsFree(disk, n - 1);
    } else {
      assert disk + Repeat(EmptyBit, n) == disk;
    }
  }

  /** Part one's compaction on the expanded disk, in place. */
  method Compact(disk: array<Bit>) returns (split: nat)
    requires disk.Length > 0
    modifies disk
    ensures multiset(disk[..]) == multiset(old(disk[..]))
    ensures split < disk.Length
    ensures forall i :: 0 <= i < split ==> disk[i].FileBit?
    ensures forall i :: split < i < disk.Length ==> disk[i] == EmptyBit
    ensures forall i :: 0 <= i < disk.Length && disk[i] != old(disk[i]) ==>
              (i < split && old(disk[i]) == EmptyBit && disk[i].FileBit?) ||
              (split <= i && old(disk[i]).FileBit? && disk[i] == EmptyBit)
    ensures disk[..] == Compaction(old(disk[..]), 0, disk.Length - 1)
  {
    ghost var original := disk[..];
    var leftIndex: nat := 0;
    var rightIndex: nat := disk.Length - 1;
    while leftIndex < rightIndex
      invariant Compacting(original, disk[..], leftIndex, rightIndex)
      invariant Compaction(disk[..], leftIndex, rightIndex) == Compaction(original, 0, disk.Length - 1)
      decreases 2 * (rightIndex - leftIndex) + (if disk[leftIndex] == EmptyBit then 1 else 0)
    {
      if disk[leftIndex].FileBit? {
        AdvanceLeft(original, disk[..], leftIndex, rightIndex);
        leftIndex := leftIndex + 1;
        continue;
      }
      if disk[rightIndex] == EmptyBit {
        RetreatRight(original, disk[..], leftIndex, rightIndex);
        rightIndex := rightIndex - 1;
        continue;
      }
      var rightFileId := disk[rightIndex].fileId;
      ghost var before := disk[..];
      disk[leftIndex] := FileBit(rightFileId);
      disk[rightIndex] := EmptyBit;
      MoveBit(original, before, disk[..], leftIndex, rightIndex);
    }
    split := leftIndex;
    CompactDone(original, disk[..], split);
  }

  /**
   * The state of the compaction loop: the bits are those of the original,
   * everything left of left is a file bit, everything right of right is free,
   * and a bit that changed is either a gap filled at or before left or a file
   * bit cleared at or after right.
   */
  ghost predicate Compacting(original: seq<Bit>, disk: seq<Bit>, left: nat, right: nat)
  {
    |disk| == |original| && left <= right < |disk| &&
    multiset(disk) == multiset(original) &&
    (forall i :: 0 <= i < left ==> disk[i].FileBit?) &&
    (forall i :: right < i < |disk| ==> disk[i] == EmptyBit) &&
    (forall i :: 0 <= i < |disk| && disk[i] != original[i] ==>
       (i <= left && original[i] == EmptyBit && disk[i].FileBit?) ||
       (right <= i && original[i].FileBit? && disk[i] == EmptyBit)) &&
    (original[left] == EmptyBit && disk[left].FileBit? ==> left < right)
  }

  lemma AdvanceLeft(original: seq<Bit>, disk: seq<Bit>, left: nat, right: nat)
    requires Compacting(original, disk, left, right) && left < right && disk[left].FileBit?
    ensures Compacting(original, disk, left + 1, right)
  {
  }

  lemma RetreatRight(original: seq<Bit>, disk: seq<Bit>, left: nat, right: nat)
    requires Compacting(original, disk, left, right) && left < right
    requires disk[left] == EmptyBit && disk[right] == EmptyBit
    ensures Compacting(original, disk, left, right - 1)
  {
  }

  /** Moving the file bit at right into the gap at left keeps the loop's state. */
  lemma MoveBit(original: seq<Bit>, before: seq<Bit>, after: seq<Bit>, left: nat, right: nat)
    requires Compacting(original, before, left, right) && left < right
    requires before[left] == EmptyBit && before[right].FileBit?
    requires after == before[left := before[right]][right := EmptyBit]
    ensures Compacting(original, after, left, right)
    ensures after[left].FileBit?
  {
    SwapPreservesMultiset(before, after, left, right);
  }

  lemma CompactDone(original: seq<Bit>, disk: seq<Bit>, split: nat)
    requires Compacting(original, disk, split, split)
    ensures forall i :: 0 <= i < |disk| && disk[i] != original[i] ==>
              (i < split && original[i] == EmptyBit && disk[i].FileBit?) ||
              (split <= i && original[i].FileBit? && disk[i] == EmptyBit)
  {
  }

  /** Writing each of two positions with the other's bit leaves the multiset of bits as it was. */
  lemma SwapPreservesMultiset(before: seq<Bit>, after: seq<Bit>, i: nat, j: nat)
    requires i < j < |before| == |after|
    requires after == before[i := before[j]][j := before[i]]
    ensures multiset(after) == multiset(before)
  {
    assert before == before[..i] + [before[i]] + before[i + 1..j] + [before[j]] + before[j + 1..];
    assert after == before[..i] + [before[j]] + before[i + 1..j] + [before[i]] + before[j + 1..];
  }

  /**
   * The compaction loop as a recursive definition: the disk once the loop,
   * started with its two indices at left and right, has run to its end.
   */
  function Compaction(disk: seq<Bit>, left: nat, right: nat): seq<Bit>
    requires left <= right < |disk|
    decreases 2 * (right - left) + (if disk[left] == EmptyBit then 1 else 0)
  {
    if left == right then disk
    else if disk[left].FileBit? then Compaction(disk, left + 1, right)
    else if disk[right] == EmptyBit then Compaction(disk, left, right - 1)
    else Compaction(disk[left := disk[right]][right := EmptyBit], left, right)
  }

  /** The number of free positions in a stretch of the disk. */
  function Gaps(w: seq<Bit>): (n: nat)
    ensures n <= |w|
  {
    if w == [] then 0 else (if w[0] == EmptyBit then 1 else 0) + Gaps(w[1..])
  }

  /** The number of file positions in a stretch of the disk. */
  function FileBits(w: seq<Bit>): nat
  {
    |w| - Gaps(w)
  }

  lemma {:induction false} GapsAppend(a: seq<Bit>, b: seq<Bit>)
    ensures Gaps(a + b) == Gaps(a) + Gaps(b)
    decreases |a|
  {
    if a == [] {
      assert a + b == b;
    } else {
      assert (a + b)[1..] == a[1..] + b;
      GapsAppend(a[1..], b);
    }
  }

  /**
   * Compacting the stretch from left to right moves the file bit at j into the
   * gap at i: the k-th gap counted from the left receives the k-th file bit
   * counted from the right, as long as the gap lies left of that file bit.
   */
  predicate Paired(disk: seq<Bit>, left: nat, right: nat, i: nat, j: nat)
    requires right < |disk|
  {
    left <= i < j <= right && disk[i] == EmptyBit && disk[j].FileBit? &&
    Gaps(disk[left..i]) == FileBits(disk[j + 1..right + 1])
  }

  /** Position x of the stretch takes part in no move. */
  ghost predicate Unpaired(disk: seq<Bit>, left: nat, right: nat, x: nat)
    requires right < |disk|
  {
    forall y: nat :: !Paired(disk, left, right, x, y) && !Paired(disk, left, right, y, x)
  }

  /**
   * The disk result is disk compacted between left and right: every paired
   * gap holds its file bit, every paired file bit is cleared, and every other
   * position is as it was.
   */
  ghost predicate Compacts(disk: seq<Bit>, left: nat, right: nat, result: seq<Bit>)
    requires right < |disk|
  {
    |result| == |disk| &&
    (forall x :: 0 <= x < |disk| && (x < left || right < x) ==> result[x] == disk[x]) &&
    (forall i: nat, j: nat :: Paired(disk, left, right, i, j) ==> result[i] == disk[j] && result[j] == EmptyBit) &&
    (forall x: nat :: left <= x <= right && Unpaired(disk, left, right, x) ==> result[x] == disk[x])
  }

  /** The recursive compaction moves exactly the paired bits. */
  lemma {:induction false} CompactionPairs(disk: seq<Bit>, left: nat, right: nat)
    requires left <= right < |disk|
    ensures Compacts(disk, left, right, Compaction(disk, left, right))
    decreases 2 * (right - left) + (if disk[left] == EmptyBit then 1 else 0)
  {
    if left == right {
    } else if disk[left].FileBit? {
      CompactionPairs(disk, left + 1, right);
      CompactsSkipFile(disk, left, right, Compaction(disk, left, right));
    } else if disk[right] == EmptyBit {
      CompactionPairs(disk, left, right - 1);
      CompactsSkipGap(disk, left, right, Compaction(disk, left, right));
    } else {
      var moved := disk[left := disk[right]][right := EmptyBit];
      assert Compaction(disk, left, right) == Compaction(moved, left + 1, right);
      CompactionPairs(moved, left + 1, right);
      CompactsSwap(disk, moved, left, right, Compaction(disk, left, right));
    }
  }

  lemma SkipFilePair(disk: seq<Bit>, left: nat, right: nat, i: nat, j: nat)
    requires left < right < |disk| && disk[left].FileBit?
    ensures Paired(disk, left, right, i, j) == Paired(disk, left + 1, right, i, j)
  {
    if left < i < j <= right {
      assert disk[left..i][1..] == disk[left + 1..i];
    }
  }

  lemma CompactsSkipFile(disk: seq<Bit>, left: nat, right: nat, result: seq<Bit>)
    requires left < right < |disk| && disk[left].FileBit?
    requires Compacts(disk, left + 1, right, result)
    ensures Compacts(disk, left, right, result)
  {
    forall i: nat, j: nat | Paired(disk, left, right, i, j)
      ensures result[i] == disk[j] && result[j] == EmptyBit
    {
      SkipFilePair(disk, left, right, i, j);
    }
    forall x: nat | left < x <= right && Unpaired(disk, left, right, x)
      ensures result[x] == disk[x]
    {
      forall y: nat {:trigger Paired(disk, left + 1, right, x, y)} {:trigger Paired(disk, left + 1, right, y, x)}
        ensures !Paired(disk, left + 1, right, x, y) && !Paired(disk, left + 1, right, y, x)
      {
        SkipFilePair(disk, left, right, x, y);
        SkipFilePair(disk, left, right, y, x);
      }
    }
  }

  lemma SkipGapPair(disk: seq<Bit>, left: nat, right: nat, i: nat, j: nat)
    requires left < right < |disk| && disk[right] == EmptyBit
    ensures Paired(disk, left, right, i, j) == Paired(disk, left, right - 1, i, j)
  {
    if left <= i < j < right {
      assert disk[j + 1..right + 1] == disk[j + 1..right] + [disk[right]];
      GapsAppend(disk[j + 1..right], [disk[right]]);
    }
  }

  lemma CompactsSkipGap(disk: seq<Bit>, left: nat, right: nat, result: seq<Bit>)
    requires left < right < |disk| && disk[right] == EmptyBit
    requires Compacts(disk, left, right - 1, result)
    ensures Compacts(disk, left, right, result)
  {
    forall i: nat, j: nat | Paired(disk, left, right, i, j)
      ensures result[i] == disk[j] && result[j] == EmptyBit
    {
      SkipGapPair(disk, left, right, i, j);
    }
    forall x: nat | left <= x < right && Unpaired(disk, left, right, x)
      ensures result[x] == disk[x]
    {
      forall y: nat {:trigger Paired(disk, left, right - 1, x, y)} {:trigger Paired(disk, left, right - 1, y, x)}
        ensures !Paired(disk, left, right - 1, x, y) && !Paired(disk, left, right - 1, y, x)
      {
        SkipGapPair(disk, left, right, x, y);
        SkipGapPair(disk, left, right, y, x);
      }
    }
  }

  /** After one move, the remaining pairs are those of the stretch one shorter at each end. */
  lemma SwapPair(disk: seq<Bit>, moved: seq<Bit>, left: nat, right: nat, i: nat, j: nat)
    requires left < right < |disk| && disk[left] == EmptyBit && disk[right].FileBit?
    requires moved == disk[left := disk[right]][right := EmptyBit]
    ensures Paired(disk, left, right, i, j) <==>
              (i == left && j == right) || Paired(moved, left + 1, right, i, j)
  {
    if left <= i < j <= right {
      if j < right {
        assert disk[j + 1..right + 1] == disk[j + 1..right] + [disk[right]];
        GapsAppend(disk[j + 1..right], [disk[right]]);
        assert moved[j + 1..right + 1] == disk[j + 1..right] + [EmptyBit];
        GapsAppend(disk[j + 1..right], [EmptyBit]);
      }
      if left < i {
        assert disk[left..i][1..] == disk[left + 1..i] == moved[left + 1..i];
      }
    }
  }

  lemma CompactsSwap(disk: seq<Bit>, moved: seq<Bit>, left: nat, right: nat, result: seq<Bit>)
    requires left < right < |disk| && disk[left] == EmptyBit && disk[right].FileBit?
    requires moved == disk[left := disk[right]][right := EmptyBit]
    requires Compacts(moved, left + 1, right, result)
    ensures Compacts(disk, left, right, result)
  {
    assert Unpaired(moved, left + 1, right, right);
    forall i: nat, j: nat | Paired(disk, left, right, i, j)
      ensures result[i] == disk[j] && result[j] == EmptyBit
    {
      SwapPair(disk, moved, left, right, i, j);
    }
    SwapPair(disk, moved, left, right, left, right);
    forall x: nat | left < x < right && Unpaired(disk, left, right, x)
      ensures result[x] == disk[x]
    {
      forall y: nat {:trigger Paired(moved, left + 1, right, x, y)} {:trigger Paired(moved, left + 1, right, y, x)}
        ensures !Paired(moved, left + 1, right, x, y) && !Paired(moved, left + 1, right, y, x)
      {
        SwapPair(disk, moved, left, right, x, y);
        SwapPair(disk, moved, left, right, y, x);
      }
    }
  }

  /**
   * The disk of the map 12101: the last file bit fills the first gap and the
   * one before it the second, so the checksum is 0*0 + 1*2 + 2*1 = 4.
   */
  lemma CompactionExample()
    ensures Compaction([FileBit(0), EmptyBit, EmptyBit, FileBit(1), FileBit(2)], 0, 4)
              == [FileBit(0), FileBit(2), FileBit(1), EmptyBit, EmptyBit]
    ensures Checksum([FileBit(0), FileBit(2), FileBit(1), EmptyBit, EmptyBit]) == 4
  {
    var start := [FileBit(0), EmptyBit, EmptyBit, FileBit(1), FileBit(2)];
    var once := [FileBit(0), FileBit(2), EmptyBit, FileBit(1), EmptyBit];
    var done := [FileBit(0), FileBit(2), FileBit(1), EmptyBit, EmptyBit];
    assert start[1 := start[4]][4 := EmptyBit] == once;
    assert once[2 := once[3]][3 := EmptyBit] == done;
    assert Compaction(done, 3, 3) == done;
    assert Compaction(once, 2, 3) == done;
    assert Compaction(once, 1, 4) == Compaction(once, 2, 3);
    assert Compaction(start, 0, 4) == Compaction(once, 1, 4);
    assert done[..3][..2] == [FileBit(0), FileBit(2)];
    assert [FileBit(0), FileBit(2)][..1] == [FileBit(0)];
    assert [FileBit(0)][..0] == [];
    assert Checksum([FileBit(0), FileBit(2)]) == 2;
    assert Checksum(done[..3]) == 4;
    assert done[..3] + [EmptyBit, EmptyBit] == done;
    TrailingFreeSpaceIsFree(done[..3], 2);
    assert Repeat(EmptyBit, 2) == [EmptyBit, EmptyBit];
  }

  /** Part one: the checksum of the compacted disk. */
  method First(input: seq<char>) returns (result: nat, compacted: seq<Bit>)
    requires forall k :: 0 <= k < |input| ==> IsDigit(input[k])
    requires exists k :: 0 <= k < |input| && input[k] != '0'
    ensures result == Checksum(compacted)
    ensures |compacted| > 0
    ensures multiset(compacted) == multiset(Layout(ParsedSpec(input)))
    ensures forall i, j :: 0 <= i < j < |compacted| && compacted[j].FileBit? ==> compacted[i].FileBit?
    ensures |compacted| == |Layout(ParsedSpec(input))|
    ensures Compacts(Layout(ParsedSpec(input)), 0, |compacted| - 1, compacted)
  {
    var blocks := Parse(input);
    assert blocks == ParsedSpec(input);
    var disk := ExpandDisk(blocks);
    NonZeroDigitGivesSpace(input, blocks);
    var a := new Bit[|disk|](k requires 0 <= k < |disk| => disk[k]);
    assert a[..] == disk;
    var split := Compact(a);
    compacted := a[..];
    CompactionPairs(disk, 0, |disk| - 1);
    result := Checksum(compacted);
  }

  lemma NonZeroDigitGivesSpace(input: seq<char>, blocks: seq<Block>)
    requires forall k :: 0 <= k < |input| ==> IsDigit(input[k])
    requires exists k :: 0 <= k < |input| && input[k] != '0'
    requires |blocks| == |input|
    requires forall k :: 0 <= k < |input| ==> blocks[k].size == DigitValue(input[k])
    ensures TotalSize(blocks) > 0
  {
    var k :| 0 <= k < |input| && input[k] != '0';
    BlockWithinTotal(blocks, k);
  }

  /** No block is larger than the whole disk. */
  lemma {:induction false} BlockWithinTotal(blocks: seq<Block>, k: nat)
    requires k < |blocks|
    ensures blocks[k].size <= TotalSize(blocks)
    decreases |blocks|
  {
    if k < |blocks| - 1 {
      BlockWithinTotal(blocks[..|blocks| - 1], k);
    }
  }

  /** The files of a block list, each as its (id, size) pair. */
  function Files(blocks: seq<Block>): multiset<(nat, nat)>
    decreases |blocks|
  {
    if blocks == [] then multiset{}
    else
      var last := blocks[|blocks| - 1];
      Files(blocks[..|blocks| - 1]) + (if last.File? then multiset{(last.id, last.size)} else multiset{})
  }

  lemma {:induction false} FilesAppend(a: seq<Block>, b: seq<Block>)
    ensures Files(a + b) == Files(a) + Files(b)
    decreases |b|
  {
    if b == [] {
      assert a + b == a;
    } else {
      assert (a + b)[..|a + b| - 1] == a + b[..|b| - 1];
      FilesAppend(a, b[..|b| - 1]);
    }
  }

  predicate Fits(block: Block, size: nat)
  {
    block.Empty? && block.size >= size
  }

  /** The find_map of part two: the leftmost free block at index from or later, and no later than blockIdx, with room for size. */
  function FirstFit(blocks: seq<Block>, blockIdx: nat, size: nat, from: nat): (r: Option<nat>)
    ensures r.Some? ==> from <= r.value <= blockIdx && r.value < |blocks| && Fits(blocks[r.value], size)
    ensures r.Some? ==> forall j :: from <= j < r.value ==> !Fits(blocks[j], size)
    ensures r.None? ==> forall j :: from <= j < |blocks| && j <= blockIdx ==> !Fits(blocks[j], size)
    decreases |blocks| - from
  {
    if from >= |blocks| || from > blockIdx then None
    else if Fits(blocks[from], size) then Some(from)
    else FirstFit(blocks, blockIdx, size, from + 1)
  }

  /**
   * The move of part two: the file at blockIdx takes the place of the free
   * block at idx, its old place becomes free space of its size, and any space
   * left over in the free block stays right after the moved file.
   */
  function Relocate(blocks: seq<Block>, blockIdx: nat, idx: nat): (r: seq<Block>)
    requires idx < blockIdx < |blocks| && blocks[blockIdx].File? && Fits(blocks[idx], blocks[blockIdx].size)
    ensures |r| >= |blocks| && r[idx] == blocks[blockIdx]
    ensures forall j :: 0 <= j < idx ==> r[j] == blocks[j]
    ensures blocks[idx].size == blocks[blockIdx].size ==>
              |r| == |blocks| && r[blockIdx] == Empty(blocks[blockIdx].size) &&
              forall j :: 0 <= j < |blocks| && j != idx && j != blockIdx ==> r[j] == blocks[j]
    ensures blocks[idx].size > blocks[blockIdx].size ==>
              |r| == |blocks| + 1 && r[idx + 1] == Empty(blocks[idx].size - blocks[blockIdx].size) &&
              r[blockIdx + 1] == Empty(blocks[blockIdx].size) &&
              forall j :: idx + 1 < j < |r| && j != blockIdx + 1 ==> r[j] == blocks[j - 1]
  {
    var file := blocks[blockIdx];
    var empty := blocks[idx];
    var cleared := blocks[blockIdx := Empty(file.size)][idx := file];
    if empty.size == file.size then cleared
    else cleared[..idx + 1] + [Empty(empty.size - file.size)] + cleared[idx + 1..]
  }

  /** The move keeps the disk's total size and its files. */
  lemma RelocatePreserves(blocks: seq<Block>, blockIdx: nat, idx: nat)
    requires idx < blockIdx < |blocks| && blocks[blockIdx].File? && Fits(blocks[idx], blocks[blockIdx].size)
    ensures TotalSize(Relocate(blocks, blockIdx, idx)) == TotalSize(blocks)
    ensures Files(Relocate(blocks, blockIdx, idx)) == Files(blocks)
  {
    var file, empty := blocks[blockIdx], blocks[idx];
    var x, y, z := blocks[..idx], blocks[idx + 1..blockIdx], blocks[blockIdx + 1..];
    var mid := RelocateShape(blocks, blockIdx, idx);
    FiveParts(x, [empty], y, [file], z);
    FiveParts(x, mid, y, [Empty(file.size)], z);
    if |mid| == 2 {
      assert mid == [mid[0]] + [mid[1]];
      SumsOf([mid[0]], [mid[1]]);
    }
  }

  /** The block list before and after the move, cut into the untouched parts and the changed ones. */
  lemma RelocateShape(blocks: seq<Block>, blockIdx: nat, idx: nat) returns (mid: seq<Block>)
    requires idx < blockIdx < |blocks| && blocks[blockIdx].File? && Fits(blocks[idx], blocks[blockIdx].size)
    ensures blocks == (blocks[..idx] + [blocks[idx]]) + ((blocks[idx + 1..blockIdx] + [blocks[blockIdx]]) + blocks[blockIdx + 1..])
    ensures Relocate(blocks, blockIdx, idx) ==
            (blocks[..idx] + mid) + ((blocks[idx + 1..blockIdx] + [Empty(blocks[blockIdx].size)]) + blocks[blockIdx + 1..])
    ensures blocks[idx].size == blocks[blockIdx].size ==> mid == [blocks[blockIdx]]
    ensures blocks[idx].size > blocks[blockIdx].size ==>
              mid == [blocks[blockIdx], Empty(blocks[idx].size - blocks[blockIdx].size)]
  {
    var file, empty := blocks[blockIdx], blocks[idx];
    var x, y, z := blocks[..idx], blocks[idx + 1..blockIdx], blocks[blockIdx + 1..];
    var freed := Empty(file.size);
    var cleared := blocks[blockIdx := freed][idx := file];
    assert cleared == (x + [file]) + ((y + [freed]) + z);
    if empty.size == file.size {
      mid := [file];
    } else {
      mid := [file, Empty(empty.size - file.size)];
      assert cleared[..idx + 1] == x + [file];
      assert cleared[idx + 1..] == (y + [freed]) + z;
    }
  }

  lemma FiveParts(a: seq<Block>, b: seq<Block>, c: seq<Block>, d: seq<Block>, e: seq<Block>)
    ensures TotalSize((a + b) + ((c + d) + e)) == TotalSize(a) + TotalSize(b) + TotalSize(c) + TotalSize(d) + TotalSize(e)
    ensures Files((a + b) + ((c + d) + e)) == Files(a) + Files(b) + Files(c) + Files(d) + Files(e)
  {
    SumsOf(a + b, (c + d) + e);
    SumsOf(a, b);
    SumsOf(c + d, e);
    SumsOf(c, d);
  }

  lemma SumsOf(a: seq<Block>, b: seq<Block>)
    ensures TotalSize(a + b) == TotalSize(a) + TotalSize(b)
    ensures Files(a + b) == Files(a) + Files(b)
  {
    TotalSizeAppend(a, b);
    FilesAppend(a, b);
  }

  /** The sum of the positions, counted from offset, of the files in blocks; the part-two loop decreases it. */
  function FilePositions(blocks: seq<Block>, offset: nat): nat
    decreases |blocks|
  {
    if blocks == [] then 0
    else FilePositions(blocks[..|blocks| - 1], offset) +
         (if blocks[|blocks| - 1].File? then offset + |blocks| - 1 else 0)
  }

  function FileCount(blocks: seq<Block>): (n: nat)
    ensures n <= |blocks|
    decreases |blocks|
  {
    if blocks == [] then 0
    else FileCount(blocks[..|blocks| - 1]) + (if blocks[|blocks| - 1].File? then 1 else 0)
  }

  lemma {:induction false} FilePositionsAppend(a: seq<Block>, b: seq<Block>, offset: nat)
    ensures FilePositions(a + b, offset) == FilePositions(a, offset) + FilePositions(b, offset + |a|)
    decreases |b|
  {
    if b == [] {
      assert a + b == a;
    } else {
      assert (a + b)[..|a + b| - 1] == a + b[..|b| - 1];
      FilePositionsAppend(a, b[..|b| - 1], offset);
    }
  }

  lemma {:induction false} FilePositionsShift(blocks: seq<Block>, offset: nat)
    ensures FilePositions(blocks, offset + 1) == FilePositions(blocks, offset) + FileCount(blocks)
    decreases |blocks|
  {
    if blocks != [] {
      FilePositionsShift(blocks[..|blocks| - 1], offset);
    }
  }

  /** When free space is left over, the loop stays at blockIdx, but the files up to it are now further left. */
  lemma RelocateMovesLeft(blocks: seq<Block>, blockIdx: nat, idx: nat)
    requires idx < blockIdx < |blocks| && blocks[blockIdx].File? && Fits(blocks[idx], blocks[blockIdx].size)
    requires blocks[idx].size > blocks[blockIdx].size
    ensures FilePositions(Relocate(blocks, blockIdx, idx)[..blockIdx + 1], 0) < FilePositions(blocks[..blockIdx + 1], 0)
  {
    PrefixPositionsBefore(blocks, blockIdx, idx);
    PrefixPositionsAfter(blocks, blockIdx, idx);
  }

  lemma PrefixPositionsBefore(blocks: seq<Block>, blockIdx: nat, idx: nat)
    requires idx < blockIdx < |blocks| && blocks[blockIdx].File? && blocks[idx].Empty?
    ensures FilePositions(blocks[..blockIdx + 1], 0) ==
            FilePositions(blocks[..idx], 0) + FilePositions(blocks[idx + 1..blockIdx], idx + 1) + blockIdx
  {
    PrefixBeforeMove(blocks, blockIdx, idx);
    PositionsBefore(blocks[..idx], blocks[idx], blocks[idx + 1..blockIdx], blocks[blockIdx]);
  }

  lemma PrefixPositionsAfter(blocks: seq<Block>, blockIdx: nat, idx: nat)
    requires idx < blockIdx < |blocks| && blocks[blockIdx].File? && Fits(blocks[idx], blocks[blockIdx].size)
    requires blocks[idx].size > blocks[blockIdx].size
    ensures FilePositions(Relocate(blocks, blockIdx, idx)[..blockIdx + 1], 0) ==
            FilePositions(blocks[..idx], 0) + idx + FilePositions(blocks[idx + 1..blockIdx], idx + 1) +
            FileCount(blocks[idx + 1..blockIdx])
  {
    RelocatedPrefix(blocks, blockIdx, idx);
    PositionsAfter(blocks[..idx], blocks[blockIdx], Empty(blocks[idx].size - blocks[blockIdx].size), blocks[idx + 1..blockIdx]);
  }

  /** The first blockIdx + 1 blocks after a move that leaves free space over. */
  lemma RelocatedPrefix(blocks: seq<Block>, blockIdx: nat, idx: nat)
    requires idx < blockIdx < |blocks| && blocks[blockIdx].File? && Fits(blocks[idx], blocks[blockIdx].size)
    requires blocks[idx].size > blocks[blockIdx].size
    ensures Relocate(blocks, blockIdx, idx)[..blockIdx + 1] ==
            ((blocks[..idx] + [blocks[blockIdx]]) + [Empty(blocks[idx].size - blocks[blockIdx].size)]) + blocks[idx + 1..blockIdx]
  {
    var mid := RelocateShape(blocks, blockIdx, idx);
    PrefixAfterMove(Relocate(blocks, blockIdx, idx), blocks[..idx], mid, blocks[idx + 1..blockIdx],
                    [Empty(blocks[blockIdx].size)] + blocks[blockIdx + 1..]);
  }

  lemma PrefixBeforeMove(blocks: seq<Block>, blockIdx: nat, idx: nat)
    requires idx < blockIdx < |blocks|
    ensures blocks[..blockIdx + 1] == ((blocks[..idx] + [blocks[idx]]) + blocks[idx + 1..blockIdx]) + [blocks[blockIdx]]
  {
  }

  lemma PrefixAfterMove(r: seq<Block>, x: seq<Block>, mid: seq<Block>, y: seq<Block>, z: seq<Block>)
    requires |mid| == 2 && |z| >= 1 && r == (x + mid) + ((y + [z[0]]) + z[1..])
    ensures r[..|x| + 2 + |y|] == ((x + [mid[0]]) + [mid[1]]) + y
  {
    assert mid == [mid[0]] + [mid[1]];
  }

  /** File positions of the prefix before the move: the free block adds nothing and the file sits last. */
  lemma PositionsBefore(x: seq<Block>, empty: Block, y: seq<Block>, file: Block)
    requires empty.Empty? && file.File?
    ensures FilePositions(((x + [empty]) + y) + [file], 0) == FilePositions(x, 0) + FilePositions(y, |x| + 1) + |x| + 1 + |y|
  {
    FreeBlockThen(x, empty, y);
    AppendFile((x + [empty]) + y, file);
  }

  lemma FreeBlockThen(x: seq<Block>, empty: Block, y: seq<Block>)
    requires empty.Empty?
    ensures FilePositions((x + [empty]) + y, 0) == FilePositions(x, 0) + FilePositions(y, |x| + 1)
  {
    AppendBlock(x, empty, 0);
    FilePositionsAppend(x + [empty], y, 0);
  }

  lemma AppendFile(blocks: seq<Block>, file: Block)
    requires file.File?
    ensures FilePositions(blocks + [file], 0) == FilePositions(blocks, 0) + |blocks|
  {
    AppendBlock(blocks, file, 0);
  }

  /** File positions of the prefix after the move: the file sits at the free block's place and the rest moves right by one. */
  lemma PositionsAfter(x: seq<Block>, file: Block, rest: Block, y: seq<Block>)
    requires file.File? && rest.Empty?
    ensures FilePositions(((x + [file]) + [rest]) + y, 0) == FilePositions(x, 0) + |x| + FilePositions(y, |x| + 1) + FileCount(y)
  {
    FileFreeThen(x, file, rest, y);
    FilePositionsShift(y, |x| + 1);
  }

  lemma FileFreeThen(x: seq<Block>, file: Block, rest: Block, y: seq<Block>)
    requires file.File? && rest.Empty?
    ensures FilePositions(((x + [file]) + [rest]) + y, 0) == FilePositions(x, 0) + |x| + FilePositions(y, |x| + 2)
  {
    FileThenFree(x, file, rest);
    FilePositionsAppend((x + [file]) + [rest], y, 0);
  }

  lemma FileThenFree(x: seq<Block>, file: Block, rest: Block)
    requires file.File? && rest.Empty?
    ensures FilePositions((x + [file]) + [rest], 0) == FilePositions(x, 0) + |x|
  {
    AppendFile(x, file);
    AppendBlock(x + [file], rest, 0);
  }

  /** One more block at the end adds its position when it is a file. */
  lemma AppendBlock(blocks: seq<Block>, b: Block, offset: nat)
    ensures FilePositions(blocks + [b], offset) == FilePositions(blocks, offset) + if b.File? then offset + |blocks| else 0
  {
    assert (blocks + [b])[..|blocks|] == blocks;
  }

  /** Part two's loop: from the last block down, each file moves to the leftmost free block before it that fits. */
  method Defragment(input: seq<Block>) returns (blocks: seq<Block>)
    requires |input| > 0
    ensures TotalSize(blocks) == TotalSize(input)
    ensures Files(blocks) == Files(input)
  {
    blocks := input;
    var blockIdx: nat := |blocks| - 1;
    while blockIdx > 0
      invariant blockIdx < |blocks|
      invariant TotalSize(blocks) == TotalSize(input)
      invariant Files(blocks) == Files(input)
      decreases blockIdx, if blockIdx < |blocks| then FilePositions(blocks[..blockIdx + 1], 0) else 0
    {
      var block := blocks[blockIdx];
      match block {
        case File(id, size) =>
          var emptyIdx := FirstFit(blocks, blockIdx, size, 0);
          if emptyIdx.Some? {
            var idx := emptyIdx.value;
            var empty := blocks[idx];
            RelocatePreserves(blocks, blockIdx, idx);
            if empty.size == size {
              blocks := Relocate(blocks, blockIdx, idx);
              blockIdx := blockIdx - 1;
            } else {
              RelocateMovesLeft(blocks, blockIdx, idx);
              blocks := Relocate(blocks, blockIdx, idx);
            }
          } else {
            blockIdx := blockIdx - 1;
          }
        case Empty(_) =>
          blockIdx := blockIdx - 1;
      }
    }
  }

  /** The values part two weighs: each file block gives size copies of its id, each free block size zeros. */
  function BlockValues(blocks: seq<Block>): seq<nat>
    decreases |blocks|
  {
    if blocks == [] then []
    else
      var last := blocks[|blocks| - 1];
      BlockValues(blocks[..|blocks| - 1]) + seq(last.size, _ => if last.File? then last.id else 0)
  }

  /** The sum of position times value. */
  function WeightedSum(values: seq<nat>): nat
    decreases |values|
  {
    if values == [] then 0
    else WeightedSum(values[..|values| - 1]) + (|values| - 1) * values[|values| - 1]
  }

  function BitValues(disk: seq<Bit>): (r: seq<nat>)
    ensures |r| == |disk| && forall k :: 0 <= k < |disk| ==> r[k] == BitValue(disk[k])
  {
    seq(|disk|, k requires 0 <= k < |disk| => BitValue(disk[k]))
  }

  lemma {:induction false} BitValuesWeighted(disk: seq<Bit>)
    ensures WeightedSum(BitValues(disk)) == Checksum(disk)
    decreases |disk|
  {
    if disk != [] {
      var prefix := disk[..|disk| - 1];
      assert BitValues(disk)[..|disk| - 1] == BitValues(prefix);
      BitValuesWeighted(prefix);
    }
  }

  lemma {:induction false} BlockValuesAreBitValues(blocks: seq<Block>)
    ensures BlockValues(blocks) == BitValues(Layout(blocks))
    decreases |blocks|
  {
    if blocks != [] {
      BlockValuesAreBitValues(blocks[..|blocks| - 1]);
    }
  }

  /** Part two's checksum over block values is the checksum of the expanded disk. */
  lemma SecondChecksumIsChecksum(blocks: seq<Block>)
    ensures WeightedSum(BlockValues(blocks)) == Checksum(Layout(blocks))
  {
    BlockValuesAreBitValues(blocks);
    BitValuesWeighted(Layout(blocks));
  }

  /** Part two: the checksum after moving whole files. */
  method Second(input: seq<char>) returns (result: nat, defragmented: seq<Block>)
    requires forall k :: 0 <= k < |input| ==> IsDigit(input[k])
    requires |input| > 0
    ensures result == Checksum(Layout(defragmented))
    ensures |Layout(defragmented)| == |Layout(ParsedSpec(input))|
    ensures Files(defragmented) == Files(ParsedSpec(input))
  {
    var blocks := Parse(input);
    assert blocks == ParsedSpec(input);
    defragmented := Defragment(blocks);
    result := WeightedSum(BlockValues(defragmented));
    SecondChecksumIsChecksum(defragmented);
  }

  /** The blocks Parse produces, as a value. */
  function ParsedSpec(input: seq<char>): (blocks: seq<Block>)
    requires forall k :: 0 <= k < |input| ==> IsDigit(input[k])
  {
    seq(|input|, k requires 0 <= k < |input| =>
      if k % 2 == 0 then File(k / 2, DigitValue(input[k])) else Empty(DigitValue(input[k])))
  }
}
